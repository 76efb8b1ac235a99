/**
 The relay bookkeeping of client.c: which peers have a link of their own, which of those relay for others, which
 are relayed, and which wait for a relay.
 */
module Relay {
  import opened Common

  /** struct peer_data, as far as links and relays go. */
  class Peer {
    const relayServer: bool
    var haveLink: bool
    var relayingPeer: Peer?
    var waitingRelay: bool
    var isRelay: bool
    var relayUsers: seq<Peer>

    constructor (relayServer: bool)
      ensures this.relayServer == relayServer
      ensures !haveLink && relayingPeer == null && !waitingRelay && !isRelay
    {
      this.relayServer := relayServer;
      haveLink, relayingPeer, waitingRelay, isRelay, relayUsers := false, null, false, false, [];
    }
  }

  /** The bookkeeping as a value: via says through whom a peer is relayed, users whom a relay serves. */
  datatype Table = Table(
    peers: set<Peer>, linked: set<Peer>, relays: seq<Peer>, users: map<Peer, seq<Peer>>,
    via: map<Peer, Peer>, waiting: seq<Peer>)

  // ---------- the invariant ----------

  ghost predicate ListsSound(t: Table) {
    && t.linked <= t.peers && (forall p :: p in t.via ==> p in t.peers && p !in t.linked)
    && NoDuplicates(t.waiting) && NoDuplicates(t.relays)
    && (forall p :: p in t.waiting ==> p in t.peers && p !in t.linked && p !in t.via)
  }

  ghost predicate UsersSound(t: Table) {
    && (forall r :: r in t.relays ==> r in t.linked && r in t.users)
    && (forall r :: r in t.users ==> r in t.relays && NoDuplicates(t.users[r]))
    && (forall r, p :: r in t.users && p in t.users[r] ==> p in t.via && t.via[p] == r)
    && (forall p :: p in t.via ==> t.via[p] in t.users && p in t.users[t.via[p]])
  }

  /**
   Every peer is at most one of linked, relayed and waiting; only linked peers are relays; a relay's user list
   holds exactly the peers that name it. Wrapped so that the methods carry it along by name.
   */
  ghost predicate Sound(t: Table, w: nat := 3) {
    if w == 0 then ListsSound(t) && UsersSound(t) else Sound(t, w - 1)
  }

  lemma {:induction false} SoundOpen(t: Table, w: nat := 3)
    requires Sound(t, w)
    ensures ListsSound(t) && UsersSound(t)
  {
    if w > 0 { SoundOpen(t, w - 1); }
  }

  lemma {:induction false} SoundClose(t: Table, w: nat := 3)
    requires ListsSound(t) && UsersSound(t)
    ensures Sound(t, w)
  {
    if w > 0 { SoundClose(t, w - 1); }
  }

  /** Nobody waits while there is a relay. */
  ghost predicate Settled(t: Table) {
    t.waiting == [] || t.relays == []
  }

  /** The peers that have asked for a relay and were not released from that. */
  ghost function Asking(t: Table): set<Peer> {
    t.via.Keys + (set p | p in t.waiting)
  }

  // ---------- the single moves ----------

  ghost function UsersOf(t: Table, r: Peer): seq<Peer> {
    if r in t.users then t.users[r] else []
  }

  ghost function Registered(t: Table, p: Peer): Table {
    t.(waiting := t.waiting + [p])
  }

  ghost function Unregistered(t: Table, p: Peer): Table {
    t.(waiting := Minus(t.waiting, p))
  }

  ghost function Installed(t: Table, p: Peer, r: Peer): Table {
    t.(users := t.users[r := UsersOf(t, r) + [p]], via := t.via[p := r])
  }

  ghost function Released(t: Table, p: Peer): Table {
    if p in t.via then t.(users := t.users[t.via[p] := Minus(UsersOf(t, t.via[p]), p)], via := t.via - {p}) else t
  }

  ghost function Linked(t: Table, p: Peer): Table {
    t.(linked := t.linked + {p})
  }

  ghost function Unlinked(t: Table, p: Peer): Table {
    t.(linked := t.linked - {p})
  }

  ghost function Opened(t: Table, r: Peer): Table {
    t.(relays := t.relays + [r], users := t.users[r := []])
  }

  ghost function Closed(t: Table, r: Peer): Table {
    t.(relays := Minus(t.relays, r), users := t.users - {r})
  }

  lemma {:induction false} SnocKeeps(s: seq<Peer>, x: Peer)
    requires NoDuplicates(s) && x !in s
    ensures NoDuplicates(s + [x])
  {
  }

  lemma {:induction false} RegisteredSound(t: Table, p: Peer)
    requires Sound(t) && p in t.peers && p !in t.linked && p !in t.via && p !in t.waiting
    ensures Sound(Registered(t, p))
  {
    SoundOpen(t);
    SnocKeeps(t.waiting, p);
    SoundClose(Registered(t, p));
  }

  lemma {:induction false} UnregisteredSound(t: Table, p: Peer)
    requires Sound(t)
    ensures Sound(Unregistered(t, p)) && p !in Unregistered(t, p).waiting
  {
    SoundOpen(t);
    MinusKeeps(t.waiting, p);
    SoundClose(Unregistered(t, p));
  }

  lemma {:induction false} InstalledUsers(t: Table, p: Peer, r: Peer, us: seq<Peer>, t': Table)
    requires UsersSound(t) && p !in t.via && r in t.relays && t' == t.(users := t.users[r := us], via := t.via[p := r])
    requires NoDuplicates(us) && p in us
    requires forall q :: q in us ==> q == p || q in UsersOf(t, r)
    requires forall q :: q in UsersOf(t, r) ==> q in us
    ensures UsersSound(t')
  {
    forall q | q in t'.via ensures t'.via[q] in t'.users && q in t'.users[t'.via[q]] {
      if q != p && t.via[q] == r {
        assert q in t.users[r];
      }
    }
  }

  lemma {:induction false} InstalledSound(t: Table, p: Peer, r: Peer)
    requires Sound(t) && p in t.peers && p !in t.linked && p !in t.via && p !in t.waiting && r in t.relays
    ensures Sound(Installed(t, p, r))
  {
    SoundOpen(t);
    assert p !in t.users[r];
    SnocKeeps(t.users[r], p);
    InstalledUsers(t, p, r, t.users[r] + [p], Installed(t, p, r));
    SoundClose(Installed(t, p, r));
  }

  lemma {:induction false} ReleasedUsers(t: Table, p: Peer, t': Table)
    requires UsersSound(t) && p in t.via && t' == Released(t, p)
    ensures UsersSound(t')
  {
    var r := t.via[p];
    MinusKeeps(t.users[r], p);
    forall q | q in t'.via ensures t'.via[q] in t'.users && q in t'.users[t'.via[q]] {
      if t.via[q] == r {
        assert q in t.users[r];
      }
    }
  }

  lemma {:induction false} ReleasedSound(t: Table, p: Peer)
    requires Sound(t) && p in t.via
    ensures t.via[p] in t.users && t.via[p] in t.relays && p in t.peers
    ensures Sound(Released(t, p)) && p !in Released(t, p).via && p !in t.waiting && p !in t.linked
  {
    SoundOpen(t);
    ReleasedUsers(t, p, Released(t, p));
    SoundClose(Released(t, p));
  }

  lemma {:induction false} LinkedSound(t: Table, p: Peer)
    requires Sound(t) && p in t.peers && p !in t.via && p !in t.waiting
    ensures Sound(Linked(t, p))
  {
    SoundOpen(t);
    SoundClose(Linked(t, p));
  }

  lemma {:induction false} UnlinkedSound(t: Table, p: Peer)
    requires Sound(t) && p !in t.relays && p in t.linked
    ensures Sound(Unlinked(t, p)) && p !in t.via && p !in t.waiting && p in t.peers
  {
    SoundOpen(t);
    SoundClose(Unlinked(t, p));
  }

  lemma {:induction false} OpenedUsers(t: Table, r: Peer, t': Table)
    requires UsersSound(t) && r in t.linked && r !in t.relays && t' == Opened(t, r)
    ensures UsersSound(t')
  {
  }

  lemma {:induction false} OpenedSound(t: Table, r: Peer)
    requires Sound(t) && r in t.linked && r !in t.relays
    ensures r !in t.users && Sound(Opened(t, r))
  {
    SoundOpen(t);
    SnocKeeps(t.relays, r);
    OpenedUsers(t, r, Opened(t, r));
    SoundClose(Opened(t, r));
  }

  lemma {:induction false} ClosedUsers(t: Table, r: Peer, relays: seq<Peer>, t': Table)
    requires UsersSound(t) && r in t.relays && UsersOf(t, r) == [] && t' == t.(relays := relays, users := t.users - {r})
    requires r !in relays
    requires forall x :: x in t.relays && x != r ==> x in relays
    requires forall x :: x in relays ==> x in t.relays
    ensures UsersSound(t')
  {
    forall p | p in t'.via ensures t'.via[p] in t'.users && p in t'.users[t'.via[p]] {
      assert p in t.users[t.via[p]];
    }
  }

  lemma {:induction false} ClosedSound(t: Table, r: Peer)
    requires Sound(t) && r in t.relays && UsersOf(t, r) == []
    ensures Sound(Closed(t, r)) && r !in Closed(t, r).relays
  {
    SoundOpen(t);
    MinusKeeps(t.relays, r);
    ClosedUsers(t, r, Minus(t.relays, r), Closed(t, r));
    SoundClose(Closed(t, r));
  }

  // ---------- what the loops come to ----------

  /** assign_relays: everyone who waits goes to the first relay, in order; wrapped like Sound. */
  ghost function Assigned(t: Table, w: nat := 3): Table {
    if w > 0 then Assigned(t, w - 1)
    else if t.relays == [] then t
    else
      var r := t.relays[0];
      t.(waiting := [], users := t.users[r := UsersOf(t, r) + t.waiting], via := AllVia(t.via, t.waiting, r))
  }

  lemma {:induction false} AssignedIs(t: Table, w: nat := 3)
    ensures Assigned(t, w) == Assigned(t, 0)
  {
    if w > 0 { AssignedIs(t, w - 1); }
  }

  ghost function AllVia(via: map<Peer, Peer>, s: seq<Peer>, r: Peer): map<Peer, Peer> {
    via + (map p | p in s :: r)
  }

  lemma {:induction false} FirstOrRest(s: seq<Peer>)
    requires s != []
    ensures forall p :: p in s <==> p == s[0] || p in s[1..]
  {
    assert s == [s[0]] + s[1..];
  }

  lemma {:induction false} AllViaFirst(via: map<Peer, Peer>, s: seq<Peer>, r: Peer)
    requires s != []
    ensures AllVia(via[s[0] := r], s[1..], r) == AllVia(via, s, r)
  {
    FirstOrRest(s);
    assert AllVia(via[s[0] := r], s[1..], r).Keys == AllVia(via, s, r).Keys;
  }

  lemma {:induction false} AssignedNone(t: Table)
    requires Sound(t) && (t.relays == [] || t.waiting == [])
    ensures Assigned(t) == t
  {
    AssignedIs(t);
    if t.relays != [] {
      var r := t.relays[0];
      assert r in t.users by { SoundOpen(t); }
      assert AllVia(t.via, [], r) == t.via;
      assert t.users[r] + [] == t.users[r];
      assert t.users[r := t.users[r]] == t.users;
    }
  }

  lemma {:induction false} AssignedFirst(t: Table, p: Peer, r: Peer, rest: seq<Peer>, t': Table)
    requires t.relays != [] && t.waiting != [] && p == t.waiting[0] && rest == t.waiting[1..] && r == t.relays[0]
    requires t' == Installed(t.(waiting := rest), p, r)
    ensures Assigned(t') == Assigned(t)
  {
    AssignedIs(t);
    AssignedIs(t');
    AllViaFirst(t.via, t.waiting, r);
    assert UsersOf(t', r) == UsersOf(t, r) + [p];
    assert UsersOf(t, r) + [p] + rest == UsersOf(t, r) + t.waiting by {
      assert t.waiting == [p] + rest;
    }
    assert t'.users[r := UsersOf(t, r) + t.waiting] == t.users[r := UsersOf(t, r) + t.waiting];
  }

  /** One round of assign_relays. */
  lemma {:induction false} AssignedNext(t: Table, p: Peer, r: Peer, t': Table)
    requires Sound(t) && t.relays != [] && t.waiting != [] && p == t.waiting[0] && r == t.relays[0]
    requires t' == Installed(Unregistered(t, p), p, r)
    ensures p in t.peers && p !in t.linked && p !in t.via && p !in Unregistered(t, p).waiting && r in t.linked
    ensures Sound(Unregistered(t, p)) && Sound(t') && Assigned(t') == Assigned(t) && t'.waiting == t.waiting[1..]
  {
    assert p in t.peers && p !in t.linked && p !in t.via && r in t.linked by {
      SoundOpen(t);
    }
    UnregisteredSound(t, p);
    InstalledSound(Unregistered(t, p), p, r);
    AssignedFirst(t, p, r, t.waiting[1..], t');
  }

  lemma {:induction false} AssignedSound(t: Table)
    requires Sound(t)
    ensures Sound(Assigned(t)) && Settled(Assigned(t))
    decreases |t.waiting|
  {
    if t.relays != [] && t.waiting != [] {
      var t' := Installed(Unregistered(t, t.waiting[0]), t.waiting[0], t.relays[0]);
      AssignedNext(t, t.waiting[0], t.relays[0], t');
      AssignedSound(t');
    } else {
      AssignedNone(t);
    }
  }

  /** The loop of peer_disable_relay_provider: the relay's users wait behind those who waited before, in order. */
  ghost function Dropped(t: Table, r: Peer): Table {
    t.(users := t.users[r := []], via := t.via - (set p | p in UsersOf(t, r)), waiting := t.waiting + UsersOf(t, r))
  }

  lemma {:induction false} DroppedFirst(t: Table, r: Peer, p: Peer, t': Table)
    requires UsersOf(t, r) != [] && p == UsersOf(t, r)[0] && p in t.via && t.via[p] == r
    requires t' == Registered(Released(t, p), p)
    ensures Dropped(t', r) == Dropped(t, r) && UsersOf(t', r) == UsersOf(t, r)[1..]
  {
    var us := t.users[r];
    assert us == [p] + us[1..];
    assert t.waiting + [p] + us[1..] == t.waiting + us;
    var a, b := Dropped(t', r), Dropped(t, r);
    assert a.users == b.users;
    assert a.via == b.via;
  }

  lemma {:induction false} DroppedNext(t: Table, r: Peer, p: Peer, t': Table)
    requires Sound(t) && r in t.relays && UsersOf(t, r) != [] && p == UsersOf(t, r)[0]
    requires t' == Registered(Released(t, p), p)
    ensures p in t.via && t.via[p] == r && p in t.peers && p !in t.linked && p !in t.waiting && p !in Released(t, p).via
    ensures Sound(Released(t, p)) && Sound(t') && Dropped(t', r) == Dropped(t, r) && UsersOf(t', r) == UsersOf(t, r)[1..]
  {
    assert p in t.via && t.via[p] == r by {
      SoundOpen(t);
      assert p in t.users[r];
    }
    ReleasedSound(t, p);
    RegisteredSound(Released(t, p), p);
    DroppedFirst(t, r, p, t');
  }

  lemma {:induction false} DroppedSound(t: Table, r: Peer)
    requires Sound(t) && r in t.relays
    ensures Sound(Dropped(t, r)) && UsersOf(Dropped(t, r), r) == []
    decreases |UsersOf(t, r)|
  {
    if UsersOf(t, r) != [] {
      var t' := Registered(Released(t, UsersOf(t, r)[0]), UsersOf(t, r)[0]);
      DroppedNext(t, r, UsersOf(t, r)[0], t');
      DroppedSound(t', r);
    } else {
      SoundOpen(t);
      assert Dropped(t, r).users == t.users;
      assert Dropped(t, r).via == t.via;
      assert Dropped(t, r) == t;
    }
  }

  // ---------- the handlers ----------

  /** peer_enable_relay_provider */
  ghost function Enabled(t: Table, r: Peer): Table {
    Assigned(Opened(t, r))
  }

  /** peer_disable_relay_provider; wrapped like Sound. */
  ghost function Disabled(t: Table, r: Peer, w: nat := 3): Table {
    if w > 0 then Disabled(t, r, w - 1) else Assigned(Closed(Dropped(t, r), r))
  }

  lemma {:induction false} DisabledIs(t: Table, r: Peer, w: nat := 3)
    ensures Disabled(t, r, w) == Disabled(t, r, 0)
  {
    if w > 0 { DisabledIs(t, r, w - 1); }
  }

  /** peer_cleanup_connections */
  ghost function Cleaned(t: Table, p: Peer): Table {
    if p in t.linked then Unlinked(if p in t.relays then Disabled(t, p) else t, p)
    else if p in t.via then Released(t, p)
    else if p in t.waiting then Unregistered(t, p)
    else t
  }

  /** peer_need_relay */
  ghost function Needing(t: Table, p: Peer): Table {
    if p in t.waiting then t
    else Assigned(Registered(if p in t.linked then Unlinked(t, p) else if p in t.via then Released(t, p) else t, p))
  }

  datatype Event =
    | Add(peer: Peer)          // peer_add
    | Remove(peer: Peer)       // peer_remove
    | Fresh(peer: Peer)        // "get a fresh link": peer_cleanup_connections and a peer_init_link that works
    | Reset(peer: Peer)        // peer_reset, also after a peer_init_link that fails
    | Up(peer: Peer, server: bool) // peer_dataproto_handler
    | Down(peer: Peer)
    | Need(peer: Peer)         // peer_need_relay

  /** May the event happen? A link goes up or down only while there is one, and a relay is never told to find one. */
  ghost predicate Enables(t: Table, e: Event) {
    match e
    case Add(p) => p !in t.peers
    case Up(p, _) => p in t.linked
    case Down(p) => p in t.linked
    case Need(p) => p in t.peers && p !in t.relays
    case _ => e.peer in t.peers
  }

  ghost function Apply(t: Table, e: Event): Table {
    match e
    case Add(p) => t.(peers := t.peers + {p})
    case Remove(p) => var c := Cleaned(t, p); c.(peers := c.peers - {p})
    case Fresh(p) => Linked(Cleaned(t, p), p)
    case Reset(p) => Cleaned(t, p)
    case Up(p, server) => if server && p !in t.relays then Enabled(t, p) else t
    case Down(p) => if p in t.relays then Disabled(t, p) else t
    case Need(p) => Needing(t, p)
  }

  lemma {:induction false} EnabledSound(t: Table, r: Peer)
    requires Sound(t) && r in t.linked && r !in t.relays
    ensures Sound(Enabled(t, r)) && Settled(Enabled(t, r)) && Enabled(t, r).linked == t.linked
  {
    AssignedIs(Opened(t, r));
    OpenedSound(t, r);
    AssignedSound(Opened(t, r));
  }

  lemma {:induction false} DisabledSound(t: Table, r: Peer)
    requires Sound(t) && r in t.relays
    ensures Sound(Disabled(t, r)) && Settled(Disabled(t, r)) && r !in Disabled(t, r).relays
    ensures Disabled(t, r).linked == t.linked && Disabled(t, r).peers == t.peers && r in t.linked
  {
    assert r in t.linked by { SoundOpen(t); }
    DisabledIs(t, r);
    DroppedSound(t, r);
    ClosedSound(Dropped(t, r), r);
    AssignedSound(Closed(Dropped(t, r), r));
    AssignedIs(Closed(Dropped(t, r), r));
  }

  lemma {:induction false} CleanedSound(t: Table, p: Peer)
    requires Sound(t) && Settled(t) && p in t.peers
    ensures var c := Cleaned(t, p);
      && Sound(c) && Settled(c) && c.peers == t.peers
      && p !in c.linked && p !in c.via && p !in c.waiting && p !in c.relays && p !in c.users
  {
    SoundOpen(t);
    if p in t.linked {
      if p in t.relays { DisabledSound(t, p); }
      UnlinkedSound(if p in t.relays then Disabled(t, p) else t, p);
    } else if p in t.via {
      ReleasedSound(t, p);
    } else if p in t.waiting {
      UnregisteredSound(t, p);
    }
    SoundOpen(Cleaned(t, p));
  }

  lemma {:induction false} NeedingSound(t: Table, p: Peer)
    requires Sound(t) && Settled(t) && p in t.peers && p !in t.relays
    ensures Sound(Needing(t, p)) && Settled(Needing(t, p)) && p in Asking(Needing(t, p))
    ensures Needing(t, p).peers == t.peers
  {
    SoundOpen(t);
    if p !in t.waiting {
      if p in t.linked {
        UnlinkedSound(t, p);
      } else if p in t.via {
        ReleasedSound(t, p);
      }
      var u := if p in t.linked then Unlinked(t, p) else if p in t.via then Released(t, p) else t;
      RegisteredSound(u, p);
      AssignedSound(Registered(u, p));
      AssignedAsking(Registered(u, p), Assigned(Registered(u, p)));
      AssignedIs(Registered(u, p));
      assert p in Registered(u, p).waiting;
    }
  }

  lemma {:induction false} AddedSound(t: Table, p: Peer, t': Table)
    requires Sound(t) && t' == t.(peers := t.peers + {p})
    ensures Sound(t')
  {
    SoundOpen(t);
    SoundClose(t');
  }

  lemma {:induction false} RemovedSound(t: Table, p: Peer, t': Table)
    requires Sound(t) && t' == t.(peers := t.peers - {p})
    requires p !in t.linked && p !in t.via && p !in t.waiting
    ensures Sound(t')
  {
    SoundOpen(t);
    SoundClose(t');
  }

  lemma {:induction false} FreshSound(t: Table, p: Peer)
    requires Sound(t) && Settled(t) && p in t.peers
    ensures Sound(Linked(Cleaned(t, p), p)) && Settled(Linked(Cleaned(t, p), p))
  {
    CleanedSound(t, p);
    LinkedSound(Cleaned(t, p), p);
  }

  lemma {:induction false} ApplySound(t: Table, e: Event)
    requires Sound(t) && Settled(t) && Enables(t, e)
    ensures Sound(Apply(t, e)) && Settled(Apply(t, e))
  {
    match e
    case Add(p) => AddedSound(t, p, Apply(t, e));
    case Remove(p) =>
      CleanedSound(t, p);
      RemovedSound(Cleaned(t, p), p, Apply(t, e));
    case Fresh(p) => FreshSound(t, p);
    case Reset(p) => CleanedSound(t, p);
    case Up(p, server) => if server && p !in t.relays { EnabledSound(t, p); }
    case Down(p) => if p in t.relays { DisabledSound(t, p); }
    case Need(p) => NeedingSound(t, p);
  }

  ghost predicate AllEnabled(t: Table, events: seq<Event>)
    decreases |events|
  {
    events != [] ==> Enables(t, events[0]) && AllEnabled(Apply(t, events[0]), events[1..])
  }

  ghost function ApplyAll(t: Table, events: seq<Event>): Table
    decreases |events|
  {
    if events == [] then t else ApplyAll(Apply(t, events[0]), events[1..])
  }

  const START: Table := Table({}, {}, [], map[], map[], [])

  lemma {:induction false} RunSoundFrom(t: Table, events: seq<Event>)
    requires Sound(t) && Settled(t) && AllEnabled(t, events)
    ensures Sound(ApplyAll(t, events)) && Settled(ApplyAll(t, events))
    decreases |events|
  {
    if events != [] {
      ApplySound(t, events[0]);
      RunSoundFrom(Apply(t, events[0]), events[1..]);
    }
  }

  /**
   Over every run from the start: each peer is at most one of linked, relayed and waiting; relays are linked; a peer
   is in the user list of exactly the relay it names; and nobody waits while there is a relay.
   */
  lemma {:induction false} RunKeeps(events: seq<Event>)
    requires AllEnabled(START, events)
    ensures var t := ApplyAll(START, events);
      && (forall p :: p in t.linked ==> p !in t.via && p !in t.waiting)
      && (forall p :: p in t.via ==> p !in t.waiting)
      && (forall r :: r in t.relays ==> r in t.linked && r in t.users)
      && (forall r, p :: r in t.users && p in t.users[r] ==> p in t.via && t.via[p] == r)
      && (forall p :: p in t.via ==> t.via[p] in t.users && p in t.users[t.via[p]])
      && (forall r :: r in t.users ==> r in t.relays && NoDuplicates(t.users[r]))
      && (t.waiting == [] || t.relays == [])
  {
    SoundClose(START);
    RunSoundFrom(START, events);
    SoundOpen(ApplyAll(START, events));
  }

  lemma {:induction false} DroppedAsking(t: Table, r: Peer, d: Table)
    requires forall p :: p in UsersOf(t, r) ==> p in t.via
    requires d == Dropped(t, r)
    ensures Asking(d) == Asking(t)
  {
    forall p ensures p in Asking(d) <==> p in Asking(t) {
      if p in UsersOf(t, r) {
        assert p in t.via && p in d.waiting;
      }
    }
  }

  lemma {:induction false} AssignedAsking(t: Table, a: Table)
    requires a == Assigned(t)
    ensures Asking(a) == Asking(t)
  {
    AssignedIs(t);
  }

  lemma {:induction false} DroppedAll(t: Table, r: Peer)
    requires Sound(t) && r in t.relays && Minus(t.relays, r) == []
    ensures Dropped(t, r).via == map[]
  {
    SoundOpen(t);
    MinusKeeps(t.relays, r);
    forall p | p in t.via ensures p in UsersOf(t, r) {
      assert t.via[p] in t.relays;
    }
  }

  /** Where the users of a relay go when it is one no more: to the first other relay, behind its own, or to wait. */
  ghost predicate HandedOver(t: Table, p: Peer, t': Table) {
    var rest := Minus(t.relays, p);
    && (rest == [] ==> t'.waiting == UsersOf(t, p) && t'.via == map[])
    && (rest != [] ==> t'.waiting == [] && UsersOf(t', rest[0]) == UsersOf(t, rest[0]) + UsersOf(t, p))
    && (forall x :: x in rest && x != rest[0] ==> UsersOf(t', x) == UsersOf(t, x))
  }

  /**
   A relay that goes down hands all its users over, in order: to the first of the other relays, behind the users
   that one has, or else to the waiting list. Nobody's request is lost, and nobody else is touched.
   */
  lemma {:induction false} RelayGone(t: Table, r: Peer)
    requires Sound(t) && Settled(t) && r in t.relays
    ensures var d := Disabled(t, r);
      && d.relays == Minus(t.relays, r) && r !in d.relays && d.peers == t.peers && d.linked == t.linked
      && Asking(d) == Asking(t) && HandedOver(t, r, d)
  {
    var c := Closed(Dropped(t, r), r);
    DisabledIs(t, r);
    GoneAlready(t, r, c);
    AssignedOver(c, Assigned(c));
    if c.relays == [] {
      DroppedAll(t, r);
    }
  }

  /** The relay has gone, and its users wait. */
  lemma {:induction false} GoneAlready(t: Table, r: Peer, c: Table)
    requires Sound(t) && Settled(t) && r in t.relays && c == Closed(Dropped(t, r), r)
    ensures c.relays == Minus(t.relays, r) && r !in c.relays && c.peers == t.peers && c.linked == t.linked
    ensures c.waiting == UsersOf(t, r) && Asking(c) == Asking(t)
    ensures forall x :: x in c.relays ==> UsersOf(c, x) == UsersOf(t, x)
  {
    assert r !in Minus(t.relays, r) && t.waiting == [] && forall p :: p in UsersOf(t, r) ==> p in t.via by {
      SoundOpen(t);
      MinusKeeps(t.relays, r);
    }
    DroppedAsking(t, r, Dropped(t, r));
    assert t.waiting + UsersOf(t, r) == UsersOf(t, r);
    assert Asking(c) == Asking(Dropped(t, r));
  }

  lemma {:induction false} AssignedOver(c: Table, d: Table)
    requires d == Assigned(c)
    ensures d.relays == c.relays && d.peers == c.peers && d.linked == c.linked && Asking(d) == Asking(c)
    ensures c.relays == [] ==> d == c
    ensures c.relays != [] ==> d.waiting == [] && UsersOf(d, c.relays[0]) == UsersOf(c, c.relays[0]) + c.waiting
    ensures c.relays != [] ==> forall x :: x != c.relays[0] ==> UsersOf(d, x) == UsersOf(c, x)
  {
    AssignedIs(c);
    AssignedAsking(c, d);
  }

  // ---------- what each handler does ----------

  /** A link that comes up: a peer that offers to relay becomes the last relay, and serves all who wait, in order. */
  lemma {:induction false} UpExact(t: Table, p: Peer, server: bool)
    requires Sound(t) && Settled(t) && Enables(t, Up(p, server))
    ensures var t' := Apply(t, Up(p, server));
      && t'.peers == t.peers && t'.linked == t.linked
      && t'.relays == (if server && p !in t.relays then t.relays + [p] else t.relays)
      && (!server || p in t.relays ==> t' == t)
      && (server && p !in t.relays ==>
          && UsersOf(t', p) == t.waiting && t'.waiting == [] && t'.via.Keys == Asking(t)
          && (forall q :: q in t.waiting ==> t'.via[q] == p) && (forall q :: q in t.via ==> t'.via[q] == t.via[q])
          && (forall r :: r in t.relays ==> UsersOf(t', r) == UsersOf(t, r)))
  {
    if server && p !in t.relays {
      SoundOpen(t);
      AssignedIs(Opened(t, p));
      assert p !in t.users;
      if t.relays == [] {
        assert [p][0] == p;
      } else {
        assert (t.relays + [p])[0] == t.relays[0];
      }
    }
  }

  /** A link that goes down: a relay is none any more, and hands its users over. */
  lemma {:induction false} DownExact(t: Table, p: Peer)
    requires Sound(t) && Settled(t) && Enables(t, Down(p))
    ensures var t' := Apply(t, Down(p));
      && t'.peers == t.peers && t'.linked == t.linked && t'.relays == Minus(t.relays, p) && p !in t'.relays
      && Asking(t') == Asking(t) && if p in t.relays then HandedOver(t, p, t') else t' == t
  {
    SoundOpen(t);
    MinusKeeps(t.relays, p);
    if p in t.relays {
      RelayGone(t, p);
    } else {
      MinusNone(t.relays, p);
    }
  }

  /** p has left everything, and the others have what they had, but for the users of p. */
  ghost predicate HasLeft(t: Table, p: Peer, t': Table) {
    && t'.relays == Minus(t.relays, p) && Asking(t') == Asking(t) - {p}
    && (if p in t.relays then HandedOver(t, p, t') else DroppedOut(t, p, t'))
  }

  ghost predicate DroppedOut(t: Table, p: Peer, t': Table) {
    && t'.waiting == Minus(t.waiting, p) && t'.via == t.via - {p}
    && forall r :: r in t.relays ==> UsersOf(t', r) == Minus(UsersOf(t, r), p)
  }

  lemma {:induction false} CleanedExact(t: Table, p: Peer, c: Table)
    requires Sound(t) && Settled(t) && p in t.peers && c == Cleaned(t, p)
    ensures HasLeft(t, p, c) && c.linked == t.linked - {p} && c.peers == t.peers
  {
    if p in t.linked && p in t.relays {
      RelayGone(t, p);
      var d := Disabled(t, p);
      assert c.relays == d.relays && c.waiting == d.waiting && c.via == d.via && c.users == d.users;
      assert p !in Asking(t) by { SoundOpen(t); }
      assert Asking(c) == Asking(d);
    } else {
      assert p !in t.relays by { SoundOpen(t); }
      DropsOut(t, p, c);
    }
  }

  lemma {:induction false} DropsOut(t: Table, p: Peer, c: Table)
    requires Sound(t) && p !in t.relays && c == Cleaned(t, p)
    ensures HasLeft(t, p, c) && c.linked == t.linked - {p} && c.peers == t.peers
  {
    assert p in t.linked || p in t.via ==> p !in t.waiting by { SoundOpen(t); }
    MinusNone(t.relays, p);
    if p in t.waiting {
      assert p !in t.linked && p !in t.via && NoDuplicates(t.waiting) by { SoundOpen(t); }
      MinusKeeps(t.waiting, p);
      NotServed(t, p);
      assert c.via == t.via - {p};
    } else {
      MinusNone(t.waiting, p);
      LeavingExact(t, p, c);
    }
    assert Asking(c) == Asking(t) - {p};
  }

  /** What peer_need_relay and peer_cleanup_connections do to a link or relaying of a peer that does not relay. */
  lemma {:induction false} LeavingExact(t: Table, p: Peer, u: Table)
    requires Sound(t) && p !in t.relays
    requires u == if p in t.linked then Unlinked(t, p) else if p in t.via then Released(t, p) else t
    ensures u.peers == t.peers && u.relays == t.relays && u.waiting == t.waiting && u.linked == t.linked - {p}
    ensures u.via == t.via - {p} && forall r :: r in t.relays ==> UsersOf(u, r) == Minus(UsersOf(t, r), p)
  {
    NotServed(t, p);
    if p in t.via {
      assert p !in t.linked && t.via[p] in t.users by { SoundOpen(t); }
      forall r | r in t.relays ensures UsersOf(u, r) == Minus(UsersOf(t, r), p) {
        if r != t.via[p] { assert UsersOf(u, r) == UsersOf(t, r); }
      }
    }
  }

  lemma {:induction false} NotServed(t: Table, p: Peer)
    requires Sound(t)
    ensures forall r :: r in t.relays && (p !in t.via || t.via[p] != r) ==> Minus(UsersOf(t, r), p) == UsersOf(t, r)
  {
    SoundOpen(t);
    forall r | r in t.relays && (p !in t.via || t.via[p] != r) ensures Minus(UsersOf(t, r), p) == UsersOf(t, r) {
      MinusNone(UsersOf(t, r), p);
    }
  }

  /** A fresh link, a reset and a removal: the peer has a link, or none, or is gone, and asks for nothing. */
  lemma {:induction false} LeavesExact(t: Table, e: Event)
    requires Sound(t) && Settled(t) && Enables(t, e) && (e.Fresh? || e.Reset? || e.Remove?)
    ensures var t', p := Apply(t, e), e.peer;
      && t'.linked == (if e.Fresh? then t.linked + {p} else t.linked - {p})
      && t'.peers == (if e.Remove? then t.peers - {p} else t.peers)
      && HasLeft(t, p, t')
  {
    CleanedExact(t, e.peer, Cleaned(t, e.peer));
    assert e.Fresh? ==> t.linked - {e.peer} + {e.peer} == t.linked + {e.peer};
    var c, t' := Cleaned(t, e.peer), Apply(t, e);
    assert t'.relays == c.relays && t'.waiting == c.waiting && t'.via == c.via && t'.users == c.users;
  }

  /** A request for a relay: the first one serves the peer, behind its other users, or else the peer waits behind the rest. */
  lemma {:induction false} NeedExact(t: Table, p: Peer)
    requires Sound(t) && Settled(t) && Enables(t, Need(p))
    ensures var t' := Apply(t, Need(p));
      && t'.peers == t.peers && t'.linked == t.linked - {p} && t'.relays == t.relays && Asking(t') == Asking(t) + {p}
      && (p in t.waiting ==> t' == t)
      && (p !in t.waiting && t.relays == [] ==> t'.waiting == t.waiting + [p] && t'.via == t.via)
      && (t.relays != [] ==>
          && t'.waiting == [] && t'.via == t.via[p := t.relays[0]]
          && (forall r :: r in t.relays ==>
              UsersOf(t', r) == Minus(UsersOf(t, r), p) + if r == t.relays[0] then [p] else []))
  {
    if p in t.waiting {
      assert t.relays == [] && p !in t.linked by { SoundOpen(t); }
      assert Asking(t) == Asking(t) + {p};
    } else {
      var u := if p in t.linked then Unlinked(t, p) else if p in t.via then Released(t, p) else t;
      LeavingExact(t, p, u);
      NeedAfter(t, p, u, Registered(u, p));
    }
  }

  lemma {:induction false} NeedAfter(t: Table, p: Peer, u: Table, v: Table)
    requires Sound(t) && Settled(t) && v == u.(waiting := u.waiting + [p]) && u.relays == t.relays && u.waiting == t.waiting
    requires u.via == t.via - {p}
    ensures var t' := Assigned(v);
      && t'.peers == u.peers && t'.linked == u.linked && t'.relays == t.relays && Asking(t') == Asking(t) + {p}
      && (t.relays == [] ==> t'.waiting == t.waiting + [p] && t'.via == t.via)
      && (t.relays != [] ==>
          && t'.waiting == [] && t'.via == t.via[p := t.relays[0]]
          && (forall r :: r in t.relays ==> UsersOf(t', r) == UsersOf(u, r) + if r == t.relays[0] then [p] else []))
  {
    AssignedAsking(v, Assigned(v));
    assert Asking(v) == Asking(t) + {p};
    if t.relays != [] {
      NeedServed(t.relays[0], p, v, t.via);
      assert v.waiting == [p];
    } else {
      AssignedIs(v);
      NobodyServed(t);
    }
  }

  lemma {:induction false} NeedServed(r: Peer, p: Peer, v: Table, via: map<Peer, Peer>)
    requires v.relays != [] && v.relays[0] == r && v.waiting == [p] && v.via == via - {p}
    ensures var t' := Assigned(v);
      && t'.peers == v.peers && t'.linked == v.linked && t'.relays == v.relays && t'.waiting == [] && t'.via == via[p := r]
      && forall x :: UsersOf(t', x) == UsersOf(v, x) + if x == r then [p] else []
  {
    AssignedTo(v, r, p);
    assert (via - {p})[p := r] == via[p := r];
  }

  lemma {:induction false} NobodyServed(t: Table)
    requires Sound(t) && t.relays == []
    ensures t.via == map[]
  {
    SoundOpen(t);
    assert t.users.Keys == {};
    assert t.via.Keys == {};
  }

  lemma {:induction false} AssignedTo(t: Table, r: Peer, p: Peer)
    requires t.relays != [] && r == t.relays[0] && t.waiting == [p]
    ensures var t' := Assigned(t);
      && t'.peers == t.peers && t'.linked == t.linked && t'.relays == t.relays
      && t'.waiting == [] && t'.via == t.via[p := r]
      && UsersOf(t', r) == UsersOf(t, r) + [p] && forall x :: x != r ==> UsersOf(t', x) == UsersOf(t, x)
  {
    AssignedIs(t);
    assert AllVia(t.via, [p], r) == t.via[p := r];
  }

  // ---------- what the history says ----------

  /** Does the event end whatever link, relaying or request the peer has? */
  ghost predicate Ends(e: Event, p: Peer) {
    e.peer == p && (e.Remove? || e.Fresh? || e.Reset? || e.Need?)
  }

  /** The last event that has settled how p is connected. */
  ghost function LastEnd(events: seq<Event>, p: Peer): Option<Event> {
    if events == [] then None
    else if Ends(events[|events| - 1], p) then Some(events[|events| - 1])
    else LastEnd(events[..|events| - 1], p)
  }

  /** Since p last got a fresh link, has it come up as a relay server and not gone down after that? */
  ghost predicate Serves(events: seq<Event>, p: Peer) {
    events != [] &&
    var e := events[|events| - 1];
    if e == Up(p, true) then true
    else if Ends(e, p) || e == Down(p) then false
    else Serves(events[..|events| - 1], p)
  }

  ghost predicate Present(events: seq<Event>, p: Peer) {
    events != [] &&
    var e := events[|events| - 1];
    if e == Add(p) then true else if e == Remove(p) then false else Present(events[..|events| - 1], p)
  }

  lemma {:induction false} RunLast(t: Table, events: seq<Event>, e: Event)
    ensures ApplyAll(t, events + [e]) == Apply(ApplyAll(t, events), e)
    ensures AllEnabled(t, events + [e]) ==> AllEnabled(t, events) && Enables(ApplyAll(t, events), e)
    decreases |events|
  {
    if events == [] {
      assert ([] + [e])[0] == e && ([] + [e])[1..] == [];
      assert ApplyAll(Apply(t, e), []) == Apply(t, e);
    } else {
      assert (events + [e])[0] == events[0] && (events + [e])[1..] == events[1..] + [e];
      RunLast(Apply(t, events[0]), events[1..], e);
    }
  }

  /** What the history says of p, and that the table says the same. */
  ghost predicate Told(t: Table, events: seq<Event>, p: Peer) {
    var last := LastEnd(events, p);
    && (p in t.peers <==> Present(events, p))
    && (p in t.linked <==> last == Some(Fresh(p)))
    && (p in Asking(t) <==> last == Some(Need(p)))
    && (p in t.relays <==> Serves(events, p))
  }

  /** Who is there, linked, asking and relaying after an event. */
  ghost predicate Moves(t: Table, e: Event, t': Table) {
    && t'.peers == (if e.Add? then t.peers + {e.peer} else if e.Remove? then t.peers - {e.peer} else t.peers)
    && t'.linked ==
      (if e.Fresh? then t.linked + {e.peer} else if e.Remove? || e.Reset? || e.Need? then t.linked - {e.peer} else t.linked)
    && Asking(t') ==
      (if e.Need? then Asking(t) + {e.peer}
       else if e.Remove? || e.Reset? || e.Fresh? then Asking(t) - {e.peer}
       else Asking(t))
    && (if e.Up? && e.server then e.peer in t'.relays
        else if e.Add? || e.Up? then e.peer in t'.relays <==> e.peer in t.relays
        else e.peer !in t'.relays)
    && forall q <- t.peers + t'.peers :: q != e.peer ==> (q in t'.relays <==> q in t.relays)
  }

  lemma {:induction false} MovesExact(t: Table, e: Event)
    requires Sound(t) && Settled(t) && Enables(t, e)
    ensures Moves(t, e, Apply(t, e))
  {
    MinusOthers(t, e.peer);
    match e
    case Add(q) => assert Asking(Apply(t, e)) == Asking(t);
    case Up(q, server) => UpMoves(t, q, server);
    case Down(q) => DownExact(t, q);
    case Need(q) => NeedExact(t, q);
    case _ => LeavesExact(t, e);
  }

  lemma {:induction false} MinusOthers(t: Table, p: Peer)
    requires Sound(t)
    ensures p !in Minus(t.relays, p) && forall q :: q != p ==> (q in Minus(t.relays, p) <==> q in t.relays)
  {
    SoundOpen(t);
    MinusKeeps(t.relays, p);
  }

  lemma {:induction false} UpMoves(t: Table, p: Peer, server: bool)
    requires Sound(t) && Settled(t) && Enables(t, Up(p, server))
    ensures Moves(t, Up(p, server), Apply(t, Up(p, server)))
  {
    UpExact(t, p, server);
    assert Asking(Apply(t, Up(p, server))) == Asking(t);
  }

  lemma {:induction false} ToldNext(t: Table, events: seq<Event>, e: Event, t': Table, p: Peer)
    requires Moves(t, e, t') && Told(t, events, p) && (p in t'.relays ==> p in t'.peers) && (p in t.relays ==> p in t.peers)
    requires e.Need? ==> e.peer !in t.relays
    ensures Told(t', events + [e], p)
  {
    assert (events + [e])[..|events|] == events;
  }

  /**
   Over every run from the start, the events alone say who is there, linked, relaying or asking for a relay: a peer is
   linked exactly if the last event that settled how it is connected was a fresh link, it asks exactly if that was a
   request, and it relays exactly if it has come up as a relay server since then and has not gone down again.
   */
  lemma {:induction false} RunExact(events: seq<Event>, p: Peer)
    requires AllEnabled(START, events)
    ensures Told(ApplyAll(START, events), events, p)
  {
    if events != [] {
      var init, e := events[..|events| - 1], events[|events| - 1];
      assert events == init + [e];
      RunLast(START, init, e);
      RunExact(init, p);
      SoundClose(START);
      RunSoundFrom(START, init);
      var t := ApplyAll(START, init);
      MovesExact(t, e);
      ApplySound(t, e);
      RelaysThere(t, p);
      RelaysThere(Apply(t, e), p);
      ToldNext(t, init, e, Apply(t, e), p);
    }
  }

  lemma {:induction false} RelaysThere(t: Table, p: Peer)
    requires Sound(t)
    ensures p in t.relays ==> p in t.peers
  {
    SoundOpen(t);
  }

  /** Whoever relays has come up as a relay server. */
  lemma {:induction false} RelaysOffered(events: seq<Event>, p: Peer)
    requires AllEnabled(START, events) && p in ApplyAll(START, events).relays
    ensures Up(p, true) in events
  {
    RunExact(events, p);
    ServesOffered(events, p);
  }

  lemma {:induction false} ServesOffered(events: seq<Event>, p: Peer)
    requires Serves(events, p)
    ensures Up(p, true) in events
  {
    if events[|events| - 1] != Up(p, true) { ServesOffered(events[..|events| - 1], p); }
  }
}
