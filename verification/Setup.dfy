/**
 The messages by which two peers of client.c agree who binds and who connects: what each side does with a message,
 and what two sides come to that talk over reliable channels.
 */
module Setup {
  import opened Common

  const UINT16_LIMIT: nat := 0x1_0000

  datatype Transport = Udp | Tcp

  datatype Address = Address(host: nat, port: nat)

  /** struct ext_addr */
  datatype ExtAddr = ExtAddr(scope: string, addr: Address)

  /** struct bind_addr; the address itself only matters to the system's bind. */
  datatype BindAddr = BindAddr(numPorts: nat, extAddrs: seq<ExtAddr>)

  /** What a link is initialised for. */
  datatype Purpose = Binding(index: nat) | Connecting(addr: Address)

  /**
   The options, and what the system will answer: for what a link can be had, the (address, port) attempts that bind,
   the addresses that a connect works for, and the random secrets.
   */
  datatype Config = Config(
    transport: Transport, bindAddrs: seq<BindAddr>, scopes: seq<string>,
    linkable: set<Purpose>, bindable: set<(nat, nat)>, reachable: set<Address>, secrets: nat -> int)

  /** The address in an address message: the message may be none, or name an address that cannot be read here. */
  datatype AddrBody = Garbled | Unreadable | Readable(addr: Address)

  datatype AddrMsg = AddrMsg(scope: string, body: AddrBody)

  /** The messages of the setup; without a secret, a YOUCONNECT lacks its key or password, or has stray data. */
  datatype Message =
    | YouConnect(addrs: seq<AddrMsg>, secret: Option<int>)
    | CannotConnect
    | CannotBind
    | YouRetry

  /** What the link does: nothing yet, wait for the peer behind one of the bind addresses, or talk to an address. */
  datatype Link = NoLink | Idle | Bound(index: nat, portAdd: nat, secret: int) | Connected(addr: Address, secret: int)

  /**
   struct peer_data, as far as the setup goes; relay: it is relayed or waits for a relay; serving: it is a relay;
   retry: the reset timer runs.
   */
  datatype End = End(
    master: bool, binding: bool, addrpos: nat, link: Link, relay: bool, serving: bool, retry: bool)

  // ---------- one side ----------

  /** The first port of the range, from `from` on, that binds. */
  function FirstPort(c: Config, k: nat, from: nat, num: nat): (r: Option<nat>)
    ensures r.Some? ==> from <= r.value < num && (k, r.value) in c.bindable
    ensures r.Some? ==> forall j :: from <= j < r.value ==> (k, j) !in c.bindable
    ensures r.None? ==> forall j :: from <= j < num ==> (k, j) !in c.bindable
    decreases num - from
  {
    if from >= num then None else if (k, from) in c.bindable then Some(from) else FirstPort(c, k, from + 1, num)
  }

  /** The port that address k gets bound to; over TCP the listener is there already. */
  function PortFor(c: Config, k: nat): Option<nat>
    requires k < |c.bindAddrs|
  {
    if c.transport == Tcp then Some(0) else FirstPort(c, k, 0, c.bindAddrs[k].numPorts)
  }

  predicate Linkless(c: Config, k: nat) {
    Binding(k) !in c.linkable
  }

  predicate Offerable(c: Config, k: nat)
    requires k < |c.bindAddrs|
  {
    c.bindAddrs[k].extAddrs != [] && !Linkless(c, k) && PortFor(c, k).Some?
  }

  /** Does peer_bind end with address k: because it can be offered, or because no link is to be had for it? */
  predicate Halts(c: Config, k: nat)
    requires k < |c.bindAddrs|
  {
    c.bindAddrs[k].extAddrs != [] && (Linkless(c, k) || PortFor(c, k).Some?)
  }

  /** The first address from p on with which peer_bind ends. */
  function NextHalt(c: Config, p: nat): (r: Option<nat>)
    ensures r.Some? ==> p <= r.value < |c.bindAddrs| && Halts(c, r.value)
    ensures r.Some? ==> forall k :: p <= k < r.value ==> !Halts(c, k)
    ensures r.None? ==> forall k :: p <= k < |c.bindAddrs| ==> !Halts(c, k)
    decreases |c.bindAddrs| - p
  {
    if p >= |c.bindAddrs| then None else if Halts(c, p) then Some(p) else NextHalt(c, p + 1)
  }

  /** Is there an address from p on that a bind is tried on? */
  predicate Tries(c: Config, p: nat) {
    exists k :: p <= k < |c.bindAddrs| && c.bindAddrs[k].extAddrs != []
  }

  function Adjusted(e: ExtAddr, portAdd: nat): Address {
    e.addr.(port := (e.addr.port + portAdd) % UINT16_LIMIT)
  }

  /** peer_send_conectinfo */
  function Offer(c: Config, k: nat, portAdd: nat): Message
    requires k < |c.bindAddrs|
  {
    var ext := c.bindAddrs[k].extAddrs;
    YouConnect(seq(|ext|, i requires 0 <= i < |ext| => AddrMsg(ext[i].scope, Readable(Adjusted(ext[i], portAdd)))),
               Some(c.secrets(k)))
  }

  /** Does the receiver go no further than this address message? */
  predicate Telling(a: AddrMsg, scopes: seq<string>) {
    a.body.Garbled? || (a.scope in scopes && a.body.Readable?)
  }

  predicate IsFirstTelling(addrs: seq<AddrMsg>, scopes: seq<string>, i: nat) {
    i < |addrs| && Telling(addrs[i], scopes) && forall j :: 0 <= j < i ==> !Telling(addrs[j], scopes)
  }

  function FirstTelling(addrs: seq<AddrMsg>, scopes: seq<string>, from: nat := 0): (r: Option<nat>)
    requires from <= |addrs| && forall j :: 0 <= j < from ==> !Telling(addrs[j], scopes)
    ensures r.None? ==> forall i :: 0 <= i < |addrs| ==> !Telling(addrs[i], scopes)
    ensures r.Some? ==> IsFirstTelling(addrs, scopes, r.value)
    decreases |addrs| - from
  {
    if from == |addrs| then None
    else if Telling(addrs[from], scopes) then Some(from)
    else FirstTelling(addrs, scopes, from + 1)
  }

  /** peer_need_relay */
  function NeedingRelay(e: End): End {
    e.(link := NoLink, relay := true)
  }

  /** A link of its own, or, with NoLink, peer_cleanup_connections */
  function WithLink(e: End, link: Link): End {
    e.(link := link, relay := false, serving := false)
  }

  /** peer_reset */
  function Reset(e: End): (End, seq<Message>) {
    if e.master then (WithLink(e, NoLink).(retry := true), []) else (WithLink(e, NoLink), [YouRetry])
  }

  /** What peer_bind makes of the address with which it ends. */
  function Halt(c: Config, e: End, k: nat): (End, seq<Message>)
    requires k < |c.bindAddrs| && Halts(c, k)
  {
    if Linkless(c, k) then Reset(e.(addrpos := k + 1))
    else
      var port := PortFor(c, k).value;
      (WithLink(e, Bound(k, port, c.secrets(k))).(addrpos := k + 1), [Offer(c, k, port)])
  }

  /** peer_bind, from the current address on */
  function Bind(c: Config, e: End): (End, seq<Message>) {
    var k := NextHalt(c, e.addrpos);
    if k.Some? then Halt(c, e, k.value)
    else GiveUp((if Tries(c, e.addrpos) then WithLink(e, Idle) else e).(addrpos := |c.bindAddrs|))
  }

  /** "No more addresses to bind to" */
  function GiveUp(e: End): (End, seq<Message>) {
    (if !e.master && !e.serving then NeedingRelay(e.(binding := false)) else e.(binding := false), [CannotBind])
  }

  /** One round of the loop of peer_bind. */
  lemma {:induction false} BindOnce(c: Config, e: End)
    requires e.addrpos < |c.bindAddrs|
    ensures var p, next := e.addrpos, e.addrpos + 1;
      && (c.bindAddrs[p].extAddrs == [] ==> Bind(c, e) == Bind(c, e.(addrpos := next)))
      && (c.bindAddrs[p].extAddrs != [] && !Halts(c, p) ==> Bind(c, e) == Bind(c, WithLink(e, Idle).(addrpos := next)))
      && (Halts(c, p) ==> Bind(c, e) == Halt(c, e, p))
  {
    assert Tries(c, e.addrpos) == (c.bindAddrs[e.addrpos].extAddrs != [] || Tries(c, e.addrpos + 1));
  }

  /** peer_start_binding */
  function StartBinding(c: Config, e: End): (End, seq<Message>) {
    Bind(c, e.(binding := true, addrpos := 0))
  }

  predicate Connects(c: Config, a: Address) {
    Connecting(a) in c.linkable && a in c.reachable
  }

  /** peer_connect */
  function Connect(c: Config, e: End, a: Address, secret: int): (End, seq<Message>) {
    if Connects(c, a) then (WithLink(e, Connected(a, secret)), []) else Reset(e)
  }

  /** What one message makes a peer do and answer. */
  function OnMessage(c: Config, e: End, m: Message): (End, seq<Message>) {
    match m
    case YouConnect(addrs, secret) =>
      var i := FirstTelling(addrs, c.scopes);
      if i.None? then (e, [CannotConnect])
      else if addrs[i.value].body.Garbled? || secret.None? then (e, [])
      else Connect(c, e, addrs[i.value].body.addr, secret.value)
    case CannotConnect =>
      if e.binding then Bind(c, e) else (e, [])
    case CannotBind =>
      if !e.master then StartBinding(c, e)
      else (if e.serving then e else NeedingRelay(e), [])
    case YouRetry =>
      if e.master then Reset(e) else (e, [])
  }

  // ---------- two sides ----------

  /** Both sides, and what is on the way to each. */
  datatype System = System(master: End, slave: End, toMaster: seq<Message>, toSlave: seq<Message>)

  const IDLE_MASTER: End := End(true, false, 0, NoLink, false, false, false)
  const IDLE_SLAVE: End := End(false, false, 0, NoLink, false, false, false)

  /** The master starts, whatever the two were doing: at first, or when its reset timer has run. */
  function Start(m: Config, me: End, se: End): System {
    var (e, out) := StartBinding(m, me.(retry := false));
    System(e, se, [], out)
  }

  function SlaveStep(s: Config, y: System): System
    requires y.toSlave != []
  {
    var (e, out) := OnMessage(s, y.slave, y.toSlave[0]);
    y.(slave := e, toSlave := y.toSlave[1..], toMaster := y.toMaster + out)
  }

  function MasterStep(m: Config, y: System): System
    requires y.toMaster != []
  {
    var (e, out) := OnMessage(m, y.master, y.toMaster[0]);
    y.(master := e, toMaster := y.toMaster[1..], toSlave := y.toSlave + out)
  }

  /** y' follows y by the delivery of one message, to whichever side. */
  ghost predicate Step(m: Config, s: Config, y: System, y': System) {
    || (y.toSlave != [] && y' == SlaveStep(s, y))
    || (y.toMaster != [] && y' == MasterStep(m, y))
  }

  predicate Quiescent(y: System) {
    y.toMaster == [] && y.toSlave == []
  }

  ghost predicate IsRun(m: Config, s: Config, me: End, se: End, run: seq<System>) {
    && run != [] && run[0] == Start(m, me, se) && me.master && !se.master
    && forall i :: 0 <= i < |run| - 1 ==> Step(m, s, run[i], run[i + 1])
  }

  // ---------- what they come to ----------

  /** The binder can offer address k, and the other side knows one of its scopes. */
  predicate Usable(binder: Config, other: Config, k: nat)
    requires k < |binder.bindAddrs|
  {
    && Offerable(binder, k)
    && exists e :: e in binder.bindAddrs[k].extAddrs && e.scope in other.scopes
  }

  /** With address k the binder's turn is over: it is usable, or no link is to be had for it. */
  predicate Decisive(binder: Config, other: Config, k: nat)
    requires k < |binder.bindAddrs|
  {
    (binder.bindAddrs[k].extAddrs != [] && Linkless(binder, k)) || Usable(binder, other, k)
  }

  ghost predicate NoneDecisive(binder: Config, other: Config, upTo: nat) {
    forall k :: 0 <= k < upTo && k < |binder.bindAddrs| ==> !Decisive(binder, other, k)
  }

  ghost predicate FirstDecisive(binder: Config, other: Config, k: nat) {
    k < |binder.bindAddrs| && Decisive(binder, other, k) && NoneDecisive(binder, other, k)
  }

  ghost predicate IsFirstKnown(ext: seq<ExtAddr>, scopes: seq<string>, i: nat) {
    i < |ext| && ext[i].scope in scopes && forall j :: 0 <= j < i ==> ext[j].scope !in scopes
  }

  /** The address that the other side picks from the offer of address k. */
  ghost predicate Picks(binder: Config, other: Config, k: nat, a: Address)
    requires k < |binder.bindAddrs|
  {
    && Usable(binder, other, k)
    && exists i: nat :: IsFirstKnown(binder.bindAddrs[k].extAddrs, other.scopes, i)
         && a == Adjusted(binder.bindAddrs[k].extAddrs[i], PortFor(binder, k).value)
  }

  /** The binder waits behind address k, and the other side has connected to that offer; neither needs a relay or is one. */
  ghost predicate Met(binder: Config, other: Config, k: nat, b: End, o: End) {
    && k < |binder.bindAddrs| && Usable(binder, other, k)
    && b.binding && b.addrpos == k + 1 && !b.relay && !b.serving && !o.relay && !o.serving
    && b.link == Bound(k, PortFor(binder, k).value, binder.secrets(k))
    && o.link.Connected? && o.link.secret == binder.secrets(k)
    && Picks(binder, other, k, o.link.addr) && Connects(other, o.link.addr)
  }

  /** The attempt at address k breaks down: no link to bind, or no connection to what the other side has picked. */
  ghost predicate Fails(binder: Config, other: Config, k: nat) {
    && k < |binder.bindAddrs|
    && (Linkless(binder, k) || exists a :: Picks(binder, other, k, a) && !Connects(other, a))
  }

  predicate GaveUp(e: End) {
    e.relay && e.link == NoLink
  }

  /** A side that was a relay for others before, and has tried no bind since, still is, and does not ask for one. */
  ghost predicate Unserved(c: Config, before: End, e: End) {
    if before.serving && !Tries(c, 0) then e.serving && e.link == before.link && e.relay == before.relay
    else GaveUp(e) && !e.serving
  }

  /** Where a run is. */
  datatype Phase =
    | Offered(byMaster: bool, k: nat)
    | Refused(byMaster: bool, k: nat)
    | MasterOut
    | SlaveOut
    | SlaveReset
    | Agreed(byMaster: bool, k: nat)
    | BothUnserved
    | Retrying

  /** The deliveries that may still come. */
  function Left(m: Config, s: Config, ph: Phase): int {
    var (nm, ns) := (|m.bindAddrs|, |s.bindAddrs|);
    match ph
    case Offered(true, k) => 2 * (nm - k) + 2 * ns + 2
    case Refused(true, k) => 2 * (nm - k) + 2 * ns + 1
    case MasterOut => 2 * ns + 2
    case Offered(false, k) => 2 * (ns - k) + 1
    case Refused(false, k) => 2 * (ns - k)
    case SlaveOut => 1
    case SlaveReset => 1
    case _ => 0
  }

  /** A side that has bound address k and says so in messages. */
  predicate Offering(c: Config, e: End, k: nat) {
    && k < |c.bindAddrs| && Offerable(c, k) && e.binding && e.addrpos == k + 1 && !e.serving && !e.relay
    && e.link == Bound(k, PortFor(c, k).value, c.secrets(k))
  }

  /** The attempt that failed: the master's, or the slave's when the master had none. */
  ghost predicate Broken(m: Config, s: Config) {
    || (exists k :: FirstDecisive(m, s, k) && Fails(m, s, k))
    || (NoneDecisive(m, s, |m.bindAddrs|) && exists k :: FirstDecisive(s, m, k) && Fails(s, m, k))
  }

  /** The master has run out of addresses: it still serves if it did and has tried none of them. */
  ghost predicate Out(m: Config, s: Config, before: End, e: End) {
    && NoneDecisive(m, s, |m.bindAddrs|) && !e.binding && e.serving == (before.serving && !Tries(m, 0))
    && (e.serving ==> e.link == before.link && e.relay == before.relay)
  }

  ghost predicate At(m: Config, s: Config, me: End, se: End, y: System, ph: Phase) {
    && y.master.master && !y.slave.master && (ph != Retrying ==> !y.master.retry)
    && match ph
       case Offered(true, k) =>
         Offering(m, y.master, k) && NoneDecisive(m, s, k) && y.slave == se
         && y.toSlave == [Offer(m, k, PortFor(m, k).value)] && y.toMaster == []
       case Refused(true, k) =>
         Offering(m, y.master, k) && NoneDecisive(m, s, k + 1) && y.slave == se
         && y.toSlave == [] && y.toMaster == [CannotConnect]
       case MasterOut =>
         Out(m, s, me, y.master) && y.slave == se && y.toSlave == [CannotBind] && y.toMaster == []
       case Offered(false, k) =>
         Out(m, s, me, y.master) && Offering(s, y.slave, k) && NoneDecisive(s, m, k)
         && y.toMaster == [Offer(s, k, PortFor(s, k).value)] && y.toSlave == []
       case Refused(false, k) =>
         Out(m, s, me, y.master) && Offering(s, y.slave, k) && NoneDecisive(s, m, k + 1)
         && y.toMaster == [] && y.toSlave == [CannotConnect]
       case SlaveOut =>
         Out(m, s, me, y.master) && NoneDecisive(s, m, |s.bindAddrs|) && Unserved(s, se, y.slave)
         && y.toMaster == [CannotBind] && y.toSlave == []
       case SlaveReset =>
         Broken(m, s) && y.slave.link == NoLink && y.toMaster == [YouRetry] && y.toSlave == []
       case Agreed(true, k) =>
         FirstDecisive(m, s, k) && Met(m, s, k, y.master, y.slave) && Quiescent(y)
       case Agreed(false, k) =>
         NoneDecisive(m, s, |m.bindAddrs|) && FirstDecisive(s, m, k) && Met(s, m, k, y.slave, y.master) && Quiescent(y)
       case BothUnserved =>
         NoneDecisive(m, s, |m.bindAddrs|) && NoneDecisive(s, m, |s.bindAddrs|)
         && Unserved(m, me, y.master) && Unserved(s, se, y.slave) && Quiescent(y)
       case Retrying =>
         Broken(m, s) && Waits(y.master) && Quiescent(y)
  }

  /** The master has nothing, and its reset timer will start the setup again. */
  predicate Waits(e: End) {
    e.retry && e.link == NoLink && !e.relay && !e.serving
  }

  /** The receiver refuses an offer exactly if the address is not usable, and otherwise connects to it, or fails to. */
  lemma {:induction false} OfferMet(b: Config, o: Config, k: nat, be: End, oe: End)
    requires Offering(b, be, k)
    ensures var (e, out) := OnMessage(o, oe, Offer(b, k, PortFor(b, k).value));
      && e.master == oe.master
      && (!Usable(b, o, k) ==> out == [CannotConnect] && e == oe)
      && (Usable(b, o, k) ==>
          (out == [] && Met(b, o, k, be, e)) || ((e, out) == Reset(oe) && Fails(b, o, k)))
  {
    var ext, port := b.bindAddrs[k].extAddrs, PortFor(b, k).value;
    var addrs := Offer(b, k, port).addrs;
    forall j | 0 <= j < |ext| ensures Telling(addrs[j], o.scopes) == (ext[j].scope in o.scopes) {
    }
    var i := FirstTelling(addrs, o.scopes);
    if i.Some? {
      assert IsFirstKnown(ext, o.scopes, i.value) && ext[i.value] in ext;
      assert Picks(b, o, k, Adjusted(ext[i.value], port));
    } else {
      forall e | e in ext ensures e.scope !in o.scopes {
        var j :| 0 <= j < |ext| && ext[j] == e;
      }
    }
  }

  lemma {:induction false} StillNone(b: Config, o: Config, p: nat, q: nat)
    requires NoneDecisive(b, o, p) && forall k :: p <= k < q && k < |b.bindAddrs| ==> !Halts(b, k)
    ensures NoneDecisive(b, o, q)
  {
    forall k | 0 <= k < q && k < |b.bindAddrs| ensures !Decisive(b, o, k) {
      if k >= p { assert !Halts(b, k); }
    }
  }

  /** From address p on peer_bind offers the next address there is, is reset, or gives up. */
  lemma {:induction false} BindGoesOn(b: Config, o: Config, e: End, p: nat)
    requires e.addrpos == p && e.binding && NoneDecisive(b, o, p) && p <= |b.bindAddrs|
    ensures var (f, out) := Bind(b, e);
      && f.master == e.master
      && match NextHalt(b, p)
         case Some(k) =>
           && k >= p && NoneDecisive(b, o, k)
           && (if Linkless(b, k) then (f, out) == Reset(e.(addrpos := k + 1)) && FirstDecisive(b, o, k) && Fails(b, o, k)
               else Offering(b, f, k) && out == [Offer(b, k, PortFor(b, k).value)])
         case None =>
           && NoneDecisive(b, o, |b.bindAddrs|) && out == [CannotBind]
           && !f.binding && f.serving == (e.serving && !Tries(b, p))
           && (f.serving ==> f.link == e.link && f.relay == e.relay)
           && (!f.master && !f.serving ==> GaveUp(f))
  {
    var k := NextHalt(b, p);
    StillNone(b, o, p, if k.Some? then k.value else |b.bindAddrs|);
  }

  /** The phase that a side's turn at binding leads to. */
  function Turned(b: Config, byMaster: bool, p: nat): Phase {
    match NextHalt(b, p)
    case None => if byMaster then MasterOut else SlaveOut
    case Some(k) => if !Linkless(b, k) then Offered(byMaster, k) else if byMaster then Retrying else SlaveReset
  }

  lemma {:induction false} StartAt(m: Config, s: Config, me: End, se: End) returns (ph: Phase)
    requires me.master && !se.master
    ensures At(m, s, me, se, Start(m, me, se), ph) && 0 <= Left(m, s, ph) <= 2 * (|m.bindAddrs| + |s.bindAddrs|) + 2
  {
    BindGoesOn(m, s, me.(retry := false, binding := true, addrpos := 0), 0);
    ph := Turned(m, true, 0);
  }

  lemma {:induction false} TriesOne(c: Config, k: nat)
    requires k < |c.bindAddrs| && Offerable(c, k)
    ensures Tries(c, 0)
  {
  }

  lemma {:induction false} NoneYet(b: Config, o: Config, k: nat)
    requires k < |b.bindAddrs| && NoneDecisive(b, o, k) && Offerable(b, k) && !Usable(b, o, k)
    ensures NoneDecisive(b, o, k + 1)
  {
  }

  /** The slave gets the master's offer. */
  lemma {:induction false} SlaveOffered(m: Config, s: Config, me: End, se: End, y: System, k: nat) returns (ph': Phase)
    requires At(m, s, me, se, y, Offered(true, k))
    ensures At(m, s, me, se, SlaveStep(s, y), ph') && ph' in {Refused(true, k), Agreed(true, k), SlaveReset}
  {
    OfferMet(m, s, k, y.master, y.slave);
    if !Usable(m, s, k) {
      NoneYet(m, s, k);
      ph' := Refused(true, k);
    } else {
      assert FirstDecisive(m, s, k);
      ph' := if SlaveStep(s, y).toMaster == [] then Agreed(true, k) else SlaveReset;
    }
  }

  /** The master gets the slave's offer. */
  lemma {:induction false} MasterOffered(m: Config, s: Config, me: End, se: End, y: System, k: nat) returns (ph': Phase)
    requires At(m, s, me, se, y, Offered(false, k))
    ensures At(m, s, me, se, MasterStep(m, y), ph') && ph' in {Refused(false, k), Agreed(false, k), Retrying}
  {
    OfferMet(s, m, k, y.slave, y.master);
    if !Usable(s, m, k) {
      NoneYet(s, m, k);
      ph' := Refused(false, k);
    } else {
      assert FirstDecisive(s, m, k);
      ph' := if MasterStep(m, y).master.link.Connected? then Agreed(false, k) else Retrying;
    }
  }

  /** The master goes on after a refusal. */
  lemma {:induction false} MasterGoesOn(m: Config, s: Config, me: End, se: End, y: System, k: nat) returns (ph': Phase)
    requires At(m, s, me, se, y, Refused(true, k))
    ensures At(m, s, me, se, MasterStep(m, y), ph') && ph' == Turned(m, true, k + 1)
  {
    BindGoesOn(m, s, y.master, k + 1);
    TriesOne(m, k);
    ph' := Turned(m, true, k + 1);
  }

  /** The slave starts to bind, or goes on after a refusal. */
  lemma {:induction false} SlaveStarts(m: Config, s: Config, me: End, se: End, y: System) returns (ph': Phase)
    requires At(m, s, me, se, y, MasterOut)
    ensures At(m, s, me, se, SlaveStep(s, y), ph') && ph' == Turned(s, false, 0)
  {
    BindGoesOn(s, m, y.slave.(binding := true, addrpos := 0), 0);
    ph' := Turned(s, false, 0);
  }

  lemma {:induction false} SlaveGoesOn(m: Config, s: Config, me: End, se: End, y: System, k: nat) returns (ph': Phase)
    requires At(m, s, me, se, y, Refused(false, k))
    ensures At(m, s, me, se, SlaveStep(s, y), ph') && ph' == Turned(s, false, k + 1)
  {
    BindGoesOn(s, m, y.slave, k + 1);
    TriesOne(s, k);
    ph' := Turned(s, false, k + 1);
  }

  /** The master hears that the slave has run out of addresses. */
  lemma {:induction false} MasterHears(m: Config, s: Config, me: End, se: End, y: System)
    requires At(m, s, me, se, y, SlaveOut)
    ensures At(m, s, me, se, MasterStep(m, y), BothUnserved)
  {
  }

  lemma {:induction false} MasterResets(m: Config, s: Config, me: End, se: End, y: System)
    requires At(m, s, me, se, y, SlaveReset)
    ensures At(m, s, me, se, MasterStep(m, y), Retrying)
  {
  }

  lemma {:induction false} MasterStepAt(m: Config, s: Config, me: End, se: End, y: System, ph: Phase) returns (ph': Phase)
    requires At(m, s, me, se, y, ph) && y.toMaster != []
    ensures At(m, s, me, se, MasterStep(m, y), ph') && 0 <= Left(m, s, ph') < Left(m, s, ph)
  {
    match ph
    case Refused(true, k) => ph' := MasterGoesOn(m, s, me, se, y, k);
    case Offered(false, k) => ph' := MasterOffered(m, s, me, se, y, k);
    case SlaveOut =>
      MasterHears(m, s, me, se, y);
      ph' := BothUnserved;
    case SlaveReset =>
      MasterResets(m, s, me, se, y);
      ph' := Retrying;
    case _ => ph' := ph;
  }

  lemma {:induction false} SlaveStepAt(m: Config, s: Config, me: End, se: End, y: System, ph: Phase) returns (ph': Phase)
    requires At(m, s, me, se, y, ph) && y.toSlave != []
    ensures At(m, s, me, se, SlaveStep(s, y), ph') && 0 <= Left(m, s, ph') < Left(m, s, ph)
  {
    match ph
    case Offered(true, k) => ph' := SlaveOffered(m, s, me, se, y, k);
    case MasterOut => ph' := SlaveStarts(m, s, me, se, y);
    case Refused(false, k) => ph' := SlaveGoesOn(m, s, me, se, y, k);
    case _ => ph' := ph;
  }

  /** Each delivery moves the run on. */
  lemma {:induction false} StepAt(m: Config, s: Config, me: End, se: End, y: System, y': System, ph: Phase)
    returns (ph': Phase)
    requires At(m, s, me, se, y, ph) && Step(m, s, y, y')
    ensures At(m, s, me, se, y', ph') && 0 <= Left(m, s, ph') < Left(m, s, ph)
  {
    if y.toSlave != [] && y' == SlaveStep(s, y) {
      ph' := SlaveStepAt(m, s, me, se, y, ph);
    } else {
      ph' := MasterStepAt(m, s, me, se, y, ph);
    }
  }

  lemma {:induction false} RunAt(m: Config, s: Config, me: End, se: End, run: seq<System>) returns (ph: Phase)
    requires IsRun(m, s, me, se, run)
    ensures At(m, s, me, se, run[|run| - 1], ph) && 0 <= Left(m, s, ph)
    ensures |run| - 1 + Left(m, s, ph) <= 2 * (|m.bindAddrs| + |s.bindAddrs|) + 2
  {
    if |run| == 1 {
      ph := StartAt(m, s, me, se);
    } else {
      var init := run[..|run| - 1];
      var before := RunAt(m, s, me, se, init);
      assert Step(m, s, run[|run| - 2], run[|run| - 1]);
      ph := StepAt(m, s, me, se, init[|init| - 1], run[|run| - 1], before);
    }
  }

  /**
   Every run stops, whatever the two sides were doing before: two deliveries for each bind address of either side and
   the two CANNOTBIND are the most there are.
   */
  lemma {:induction false} RunStops(m: Config, s: Config, me: End, se: End, run: seq<System>)
    requires IsRun(m, s, me, se, run)
    ensures |run| - 1 <= 2 * (|m.bindAddrs| + |s.bindAddrs|) + 2
    ensures |run[|run| - 1].toMaster| + |run[|run| - 1].toSlave| <= 1
  {
    var ph := RunAt(m, s, me, se, run);
  }

  /**
   The two have met at the master's first decisive address; if it has none, at the slave's; if neither has one, they
   ask for a relay, except for a side that serves as one and has tried no bind; and if the decisive attempt breaks
   down, the master waits to start again.
   */
  ghost predicate Agreement(m: Config, s: Config, me: End, se: End, me': End, se': End) {
    if me'.retry then Broken(m, s) && Waits(me')
    else
      || (exists k :: FirstDecisive(m, s, k) && Met(m, s, k, me', se'))
      || (NoneDecisive(m, s, |m.bindAddrs|) && exists k :: FirstDecisive(s, m, k) && Met(s, m, k, se', me'))
      || (&& NoneDecisive(m, s, |m.bindAddrs|) && NoneDecisive(s, m, |s.bindAddrs|)
          && Unserved(m, me, me') && Unserved(s, se, se'))
  }

  lemma {:induction false} AtAgrees(m: Config, s: Config, me: End, se: End, y: System, ph: Phase)
    requires At(m, s, me, se, y, ph) && Quiescent(y)
    ensures Agreement(m, s, me, se, y.master, y.slave)
  {
    if ph.Agreed? {
      if ph.byMaster {
        assert Met(m, s, ph.k, y.master, y.slave);
      } else {
        assert Met(s, m, ph.k, y.slave, y.master);
      }
    }
  }

  /** Where a run stops, the two agree. */
  lemma {:induction false} RunAgrees(m: Config, s: Config, me: End, se: End, run: seq<System>)
    requires IsRun(m, s, me, se, run) && Quiescent(run[|run| - 1])
    ensures Agreement(m, s, me, se, run[|run| - 1].master, run[|run| - 1].slave)
  {
    var ph := RunAt(m, s, me, se, run);
    AtAgrees(m, s, me, se, run[|run| - 1], ph);
  }

  /** The first decisive address is one. */
  lemma {:induction false} OneDecisive(b: Config, o: Config, k: nat, l: nat)
    requires FirstDecisive(b, o, k) && FirstDecisive(b, o, l)
    ensures k == l
  {
  }

  lemma {:induction false} OnePick(b: Config, o: Config, k: nat, a: Address, a': Address)
    requires k < |b.bindAddrs| && Picks(b, o, k, a) && Picks(b, o, k, a')
    ensures a == a'
  {
    var ext, port := b.bindAddrs[k].extAddrs, PortFor(b, k).value;
    var i: nat :| IsFirstKnown(ext, o.scopes, i) && a == Adjusted(ext[i], port);
    var j: nat :| IsFirstKnown(ext, o.scopes, j) && a' == Adjusted(ext[j], port);
    assert i == j;
  }

  /** Of one offer only one address can be picked, so it cannot both meet and fail. */
  lemma {:induction false} MeetsOrFails(b: Config, o: Config, k: nat, be: End, oe: End)
    requires Met(b, o, k, be, oe)
    ensures !Fails(b, o, k)
  {
    forall a | Picks(b, o, k, a) ensures a == oe.link.addr {
      OnePick(b, o, k, a, oe.link.addr);
    }
  }

  /**
   The configurations alone decide between the outcomes: whose decisive address it is, whether the attempt fails
   there, and so who binds and where.
   */
  lemma {:induction false} OneOutcome(m: Config, s: Config, me: End, se: End, me': End, se': End, k: nat)
    requires Agreement(m, s, me, se, me', se')
    ensures FirstDecisive(m, s, k) && !Fails(m, s, k) ==> Met(m, s, k, me', se')
    ensures FirstDecisive(m, s, k) && Fails(m, s, k) ==> Waits(me')
    ensures NoneDecisive(m, s, |m.bindAddrs|) && FirstDecisive(s, m, k) && !Fails(s, m, k) ==> Met(s, m, k, se', me')
    ensures NoneDecisive(m, s, |m.bindAddrs|) && FirstDecisive(s, m, k) && Fails(s, m, k) ==> Waits(me')
    ensures NoneDecisive(m, s, |m.bindAddrs|) && NoneDecisive(s, m, |s.bindAddrs|) ==>
      Unserved(m, me, me') && Unserved(s, se, se')
  {
    if l :| FirstDecisive(m, s, l) && Met(m, s, l, me', se') {
      MeetsOrFails(m, s, l, me', se');
      if FirstDecisive(m, s, k) { OneDecisive(m, s, k, l); }
    } else if NoneDecisive(m, s, |m.bindAddrs|) && exists l :: FirstDecisive(s, m, l) && Met(s, m, l, se', me') {
      var l :| FirstDecisive(s, m, l) && Met(s, m, l, se', me');
      MeetsOrFails(s, m, l, se', me');
      if FirstDecisive(s, m, k) { OneDecisive(s, m, k, l); }
    } else if Broken(m, s) && Waits(me') {
      if l :| FirstDecisive(m, s, l) && Fails(m, s, l) {
        if FirstDecisive(m, s, k) { OneDecisive(m, s, k, l); }
      } else {
        var l :| FirstDecisive(s, m, l) && Fails(s, m, l);
        if FirstDecisive(s, m, k) { OneDecisive(s, m, k, l); }
      }
    }
  }

  // ---------- the outcomes in terms of the options ----------

  /**
   An attempt with address k of the binder: a link is to be had for it, r is the first port of its range that binds
   (or 0 for a TCP listener), and i the first of its external addresses in a scope that the other side knows.
   */
  ghost predicate Attempt(b: Config, o: Config, k: nat, i: nat, r: nat) {
    && k < |b.bindAddrs| && Binding(k) in b.linkable
    && (if b.transport == Tcp then r == 0
        else r < b.bindAddrs[k].numPorts && (k, r) in b.bindable && forall j :: 0 <= j < r ==> (k, j) !in b.bindable)
    && i < |b.bindAddrs[k].extAddrs| && b.bindAddrs[k].extAddrs[i].scope in o.scopes
    && forall j :: 0 <= j < i ==> b.bindAddrs[k].extAddrs[j].scope !in o.scopes
  }

  /** a is where an attempt with these leads: the external address, moved by as many ports as the bound one. */
  ghost predicate LeadsTo(b: Config, k: nat, i: nat, r: nat, a: Address)
    requires k < |b.bindAddrs| && i < |b.bindAddrs[k].extAddrs|
  {
    var x := b.bindAddrs[k].extAddrs[i].addr;
    a.host == x.host && a.port == (x.port + r) % 0x1_0000
  }

  lemma {:induction false} PicksExact(b: Config, o: Config, k: nat, a: Address) returns (i: nat, r: nat)
    requires k < |b.bindAddrs| && Picks(b, o, k, a)
    ensures Attempt(b, o, k, i, r) && LeadsTo(b, k, i, r, a) && PortFor(b, k) == Some(r)
  {
    i :| IsFirstKnown(b.bindAddrs[k].extAddrs, o.scopes, i)
      && a == Adjusted(b.bindAddrs[k].extAddrs[i], PortFor(b, k).value);
    r := PortFor(b, k).value;
  }

  lemma {:induction false} AttemptPicks(b: Config, o: Config, k: nat, i: nat, r: nat, a: Address)
    requires Attempt(b, o, k, i, r) && LeadsTo(b, k, i, r, a)
    ensures Picks(b, o, k, a) && PortFor(b, k) == Some(r)
  {
    assert b.bindAddrs[k].extAddrs[i] in b.bindAddrs[k].extAddrs;
    assert IsFirstKnown(b.bindAddrs[k].extAddrs, o.scopes, i);
    assert a == Adjusted(b.bindAddrs[k].extAddrs[i], r);
  }

  /**
   Where two sides have met: the binder is bound to the first port that binds, and the other side has connected to the
   first external address that it knows, moved by as many ports, with the secret of the binder.
   */
  lemma {:induction false} MetExact(b: Config, o: Config, k: nat, be: End, oe: End) returns (i: nat)
    requires Met(b, o, k, be, oe)
    ensures be.link.Bound? && be.link.index == k && oe.link.Connected? && oe.link.secret == be.link.secret == b.secrets(k)
    ensures Attempt(b, o, k, i, be.link.portAdd) && LeadsTo(b, k, i, be.link.portAdd, oe.link.addr)
    ensures Connecting(oe.link.addr) in o.linkable && oe.link.addr in o.reachable
    ensures !be.relay && !be.serving && !oe.relay && !oe.serving
  {
    var r;
    i, r := PicksExact(b, o, k, oe.link.addr);
  }

  /** An attempt fails exactly if there is no link to bind, or the other side cannot connect to where it leads. */
  lemma {:induction false} FailsExact(b: Config, o: Config, k: nat)
    requires k < |b.bindAddrs|
    ensures Fails(b, o, k) <==>
      || Binding(k) !in b.linkable
      || exists a, i: nat, r: nat :: Attempt(b, o, k, i, r) && LeadsTo(b, k, i, r, a) && (Connecting(a) !in o.linkable || a !in o.reachable)
  {
    if a :| Picks(b, o, k, a) && !Connects(o, a) {
      var i, r := PicksExact(b, o, k, a);
      assert Attempt(b, o, k, i, r) && LeadsTo(b, k, i, r, a);
    }
    if a, i: nat, r: nat :| Attempt(b, o, k, i, r) && LeadsTo(b, k, i, r, a) && (Connecting(a) !in o.linkable || a !in o.reachable) {
      AttemptPicks(b, o, k, i, r, a);
      assert !Connects(o, a);
    }
  }

  /** An address is decisive exactly if it has external addresses and there is no link for it, or an attempt with it. */
  lemma {:induction false} DecisiveExact(b: Config, o: Config, k: nat)
    requires k < |b.bindAddrs|
    ensures Decisive(b, o, k) <==>
      b.bindAddrs[k].extAddrs != [] && (Binding(k) !in b.linkable || exists i: nat, r: nat :: Attempt(b, o, k, i, r))
  {
    var ext := b.bindAddrs[k].extAddrs;
    if Usable(b, o, k) {
      var e :| e in ext && e.scope in o.scopes;
      var j :| 0 <= j < |ext| && ext[j] == e;
      var i := FirstKnown(ext, o.scopes, 0, j);
      assert Attempt(b, o, k, i, PortFor(b, k).value);
    }
    if i: nat, r: nat :| Attempt(b, o, k, i, r) {
      var x := ext[i].addr;
      AttemptPicks(b, o, k, i, r, Address(x.host, (x.port + r) % 0x1_0000));
    }
  }

  lemma {:induction false} FirstKnown(ext: seq<ExtAddr>, scopes: seq<string>, from: nat, j: nat) returns (i: nat)
    requires from <= j < |ext| && ext[j].scope in scopes && forall n :: 0 <= n < from ==> ext[n].scope !in scopes
    ensures i < |ext| && ext[i].scope in scopes && forall n :: 0 <= n < i ==> ext[n].scope !in scopes
    decreases j - from
  {
    if ext[from].scope in scopes {
      i := from;
    } else {
      i := FirstKnown(ext, scopes, from + 1, j);
    }
  }

  /** A side that met nobody asks for a relay and has no link, unless it is a relay with no external address to bind. */
  lemma {:induction false} UnservedExact(c: Config, before: End, e: End)
    ensures Unserved(c, before, e) <==>
      if before.serving && (forall k :: 0 <= k < |c.bindAddrs| ==> c.bindAddrs[k].extAddrs == [])
      then e.serving && e.link == before.link && e.relay == before.relay
      else e.relay && e.link == NoLink && !e.serving
  {
    if before.serving && !Tries(c, 0) {
      forall k | 0 <= k < |c.bindAddrs| ensures c.bindAddrs[k].extAddrs == [] {
      }
    }
  }

  /**
   Any YOUCONNECT: i is the first address that is garbled, or readable and in a known scope, or there is none. Without
   one the offer is refused; a garbled one, or a missing secret, and nothing happens; otherwise the side connects to
   it, or is reset if it cannot.
   */
  lemma {:induction false} YouConnectExact(c: Config, e: End, addrs: seq<AddrMsg>, secret: Option<int>, i: nat)
    requires i <= |addrs|
    requires forall j :: 0 <= j < i ==> !addrs[j].body.Garbled? && (addrs[j].body.Readable? ==> addrs[j].scope !in c.scopes)
    requires i < |addrs| ==> addrs[i].body.Garbled? || (addrs[i].body.Readable? && addrs[i].scope in c.scopes)
    ensures var (e', out) := OnMessage(c, e, YouConnect(addrs, secret));
      if i == |addrs| then e' == e && out == [CannotConnect]
      else if addrs[i].body.Garbled? || secret.None? then e' == e && out == []
      else
        var a := addrs[i].body.addr;
        if Connecting(a) in c.linkable && a in c.reachable then
          e' == e.(link := Connected(a, secret.value), relay := false, serving := false) && out == []
        else
          && e' == e.(link := NoLink, relay := false, serving := false, retry := e.retry || e.master)
          && out == if e.master then [] else [YouRetry]
  {
    var f := FirstTelling(addrs, c.scopes);
    if i < |addrs| {
      assert Telling(addrs[i], c.scopes);
      assert f == Some(i);
    } else {
      assert f.None?;
    }
  }

  /** A refusal that answers no offer, a YOURETRY to a slave, and a CANNOTBIND to a master whose peer relays do nothing. */
  lemma {:induction false} StrayMessages(c: Config, e: End)
    ensures !e.binding ==> OnMessage(c, e, CannotConnect) == (e, [])
    ensures !e.master ==> OnMessage(c, e, YouRetry) == (e, [])
    ensures e.master && e.serving ==> OnMessage(c, e, CannotBind) == (e, [])
    ensures e.master ==> OnMessage(c, e, YouRetry) == (e.(link := NoLink, relay := false, serving := false, retry := true), [])
  {
  }
}
