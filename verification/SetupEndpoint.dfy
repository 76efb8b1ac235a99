/** The setup handlers of client.c, on a peer's fields and on top of the relay bookkeeping. */
module SetupEndpoint {
  import opened Common
  import opened Relay
  import opened RelayClient
  import opened Setup

  class Endpoint {
    const client: Client
    const peer: Peer
    const config: Config
    const master: bool
    var binding: bool
    var bindingAddrpos: nat
    var retryTimer: bool
    var io: Link           // what DatagramPeerIO or StreamPeerIO was told to do
    var chat: seq<Message> // the messages sent and not yet delivered

    ghost predicate Valid()
      reads this, client, client.table.peers
    {
      client.Valid() && peer in client.table.peers && bindingAddrpos <= |config.bindAddrs| && io != NoLink
    }

    ghost function View(): End
      reads this, peer
    {
      End(master, binding, bindingAddrpos, if peer.haveLink then io else NoLink,
          peer.waitingRelay || peer.relayingPeer != null, peer.isRelay, retryTimer)
    }

    /** A peer that peer_add has just made. */
    constructor (client: Client, config: Config, master: bool, relayServer: bool)
      requires client.Valid()
      modifies client
      ensures this.client == client && this.config == config && this.master == master && fresh(peer)
      ensures peer.relayServer == relayServer && client.table == Apply(old(client.table), Add(peer))
      ensures Valid() && chat == [] && View() == if master then IDLE_MASTER else IDLE_SLAVE
    {
      var p := client.AddPeer(relayServer);
      this.client, this.config, this.master, this.peer := client, config, master, p;
      binding, bindingAddrpos, retryTimer, io, chat := false, 0, false, Idle, [];
    }

    method Reset()
      requires Valid()
      modifies this`retryTimer, this`chat, client, client.table.peers
      ensures Valid() && client.table.peers == old(client.table.peers)
      ensures var (e, out) := Setup.Reset(old(View()));
        View() == e && chat == old(chat) + out
    {
      client.ResetPeer(peer);
      if master {
        retryTimer := true;
      } else {
        chat := chat + [YouRetry];
      }
    }

    /** peer_reset_timer_handler, and peer_job_init of a new master */
    method ResetTimerHandler()
      requires Valid() && master
      modifies this, client, client.table.peers
      ensures Valid() && client.table.peers == old(client.table.peers)
      ensures var (e, out) := Setup.StartBinding(config, old(View()).(retry := false));
        View() == e && chat == old(chat) + out
    {
      retryTimer := false;
      StartBinding();
    }

    method StartBinding()
      requires Valid()
      modifies this, client, client.table.peers
      ensures Valid() && client.table.peers == old(client.table.peers)
      ensures var (e, out) := Setup.StartBinding(config, old(View()));
        View() == e && chat == old(chat) + out
    {
      binding := true;
      bindingAddrpos := 0;
      Bind();
    }

    method Bind()
      requires Valid() && binding
      modifies this, client, client.table.peers
      ensures Valid() && client.table.peers == old(client.table.peers)
      ensures var (e, out) := Setup.Bind(config, old(View()));
        View() == e && chat == old(chat) + out
    {
      ghost var start := View();
      while bindingAddrpos < |config.bindAddrs|
        invariant Valid() && client.table.peers == old(client.table.peers) && chat == old(chat) && binding
        invariant Setup.Bind(config, View()) == Setup.Bind(config, start)
        decreases |config.bindAddrs| - bindingAddrpos
      {
        var cont := TryAddress();
        if !cont {
          return;
        }
      }
      NoMore(config, View());
      StopBinding();
    }

    /** One round of the loop of peer_bind */
    method TryAddress() returns (cont: bool)
      requires Valid() && binding && bindingAddrpos < |config.bindAddrs|
      modifies this`io, this`chat, this`bindingAddrpos, this`retryTimer, client, client.table.peers
      ensures Valid() && client.table.peers == old(client.table.peers)
      ensures bindingAddrpos == old(bindingAddrpos) + 1
      ensures cont ==> chat == old(chat) && Setup.Bind(config, View()) == Setup.Bind(config, old(View()))
      ensures !cont ==>
        View() == Setup.Bind(config, old(View())).0 && chat == old(chat) + Setup.Bind(config, old(View())).1
    {
      BindOnce(config, View());
      if |config.bindAddrs[bindingAddrpos].extAddrs| == 0 {
        bindingAddrpos := bindingAddrpos + 1;
        return true;
      }
      cont := BindOneAddress(bindingAddrpos);
      bindingAddrpos := bindingAddrpos + 1;
    }

    /** The end of peer_bind */
    method StopBinding()
      requires Valid()
      modifies this`binding, this`chat, client, client.table.peers
      ensures Valid() && client.table.peers == old(client.table.peers)
      ensures View() == GiveUp(old(View())).0 && chat == old(chat) + GiveUp(old(View())).1
    {
      binding := false;
      chat := chat + [CannotBind];
      if !master {
        if !peer.isRelay {
          client.NeedRelay(peer);
        }
      }
    }

    /** The fresh link of the two below: when there is none to be had, the peer is reset. */
    method GetLink(purpose: Purpose) returns (works: bool)
      requires Valid()
      modifies this`io, this`retryTimer, this`chat, client, client.table.peers
      ensures Valid() && client.table.peers == old(client.table.peers) && works == (purpose in config.linkable)
      ensures works ==> View() == WithLink(old(View()), Idle) && chat == old(chat)
      ensures !works ==> View() == Setup.Reset(old(View())).0 && chat == old(chat) + Setup.Reset(old(View())).1
    {
      works := purpose in config.linkable;
      client.FreshLink(peer, works);
      if works {
        io := Idle;
      } else {
        Reset();
      }
    }

    /** The loop over the ports of a range */
    method BindPort(index: nat) returns (portAdd: nat)
      requires index < |config.bindAddrs|
      ensures portAdd <= config.bindAddrs[index].numPorts
      ensures FirstPort(config, index, 0, config.bindAddrs[index].numPorts)
        == if portAdd == config.bindAddrs[index].numPorts then None else Some(portAdd)
    {
      portAdd := 0;
      var num := config.bindAddrs[index].numPorts;
      while portAdd < num
        invariant portAdd <= num && FirstPort(config, index, 0, num) == FirstPort(config, index, portAdd, num)
      {
        if (index, portAdd) in config.bindable {
          break;
        }
        portAdd := portAdd + 1;
      }
    }

    method BindOneAddress(index: nat) returns (cont: bool)
      requires Valid() && index < |config.bindAddrs| && config.bindAddrs[index].extAddrs != []
      modifies this`io, this`chat, this`retryTimer, client, client.table.peers
      ensures Valid() && client.table.peers == old(client.table.peers)
      ensures cont == !Halts(config, index)
      ensures cont ==> View() == WithLink(old(View()), Idle) && chat == old(chat)
      ensures !cont ==> View().(addrpos := index + 1) == Halt(config, old(View()), index).0
      ensures !cont ==> chat == old(chat) + Halt(config, old(View()), index).1
    {
      cont := false;
      var works := GetLink(Binding(index));
      if !works {
        return;
      }
      var portAdd := 0;
      if config.transport == Udp {
        portAdd := BindPort(index);
        if portAdd == config.bindAddrs[index].numPorts {
          return true;
        }
      }
      io := Bound(index, portAdd, config.secrets(index));
      chat := chat + [Offer(config, index, portAdd)];
    }

    method Connect(addr: Address, secret: int)
      requires Valid()
      modifies this`io, this`retryTimer, this`chat, client, client.table.peers
      ensures Valid() && client.table.peers == old(client.table.peers)
      ensures var (e, out) := Setup.Connect(config, old(View()), addr, secret);
        View() == e && chat == old(chat) + out
    {
      var works := GetLink(Connecting(addr));
      if !works {
        return;
      }
      if addr !in config.reachable {
        Reset();
        return;
      }
      io := Connected(addr, secret);
    }

    /** The loop over the addresses of a YOUCONNECT */
    method PickAddress(addrs: seq<AddrMsg>) returns (i: nat)
      ensures i <= |addrs| && FirstTelling(addrs, config.scopes) == if i == |addrs| then None else Some(i)
    {
      i := 0;
      while i < |addrs|
        invariant i <= |addrs| && forall j :: 0 <= j < i ==> !Telling(addrs[j], config.scopes)
        invariant FirstTelling(addrs, config.scopes) == FirstTelling(addrs, config.scopes, i)
      {
        if addrs[i].body.Garbled? {
          return;
        }
        if addrs[i].scope in config.scopes {
          if addrs[i].body.Readable? {
            return;
          }
        }
        i := i + 1;
      }
    }

    method MsgYouConnect(addrs: seq<AddrMsg>, secret: Option<int>)
      requires Valid()
      modifies this, client, client.table.peers
      ensures Valid() && client.table.peers == old(client.table.peers)
      ensures var (e, out) := OnMessage(config, old(View()), YouConnect(addrs, secret));
        View() == e && chat == old(chat) + out
    {
      var i := PickAddress(addrs);
      if i == |addrs| {
        chat := chat + [CannotConnect];
        return;
      }
      if addrs[i].body.Garbled? || secret.None? {
        return;
      }
      Connect(addrs[i].body.addr, secret.value);
    }

    method MsgCannotConnect()
      requires Valid()
      modifies this, client, client.table.peers
      ensures Valid() && client.table.peers == old(client.table.peers)
      ensures var (e, out) := OnMessage(config, old(View()), CannotConnect);
        View() == e && chat == old(chat) + out
    {
      if !binding {
        return;
      }
      Bind();
    }

    method MsgCannotBind()
      requires Valid()
      modifies this, client, client.table.peers
      ensures Valid() && client.table.peers == old(client.table.peers)
      ensures var (e, out) := OnMessage(config, old(View()), CannotBind);
        View() == e && chat == old(chat) + out
    {
      if !master {
        StartBinding();
      } else if !peer.isRelay {
        client.NeedRelay(peer);
      }
    }

    method MsgYouRetry()
      requires Valid()
      modifies this, client, client.table.peers
      ensures Valid() && client.table.peers == old(client.table.peers)
      ensures var (e, out) := OnMessage(config, old(View()), YouRetry);
        View() == e && chat == old(chat) + out
    {
      if !master {
        return;
      }
      Reset();
    }

    /** peer_chat_handler_message */
    method Deliver(m: Message)
      requires Valid()
      modifies this, client, client.table.peers
      ensures Valid() && client.table.peers == old(client.table.peers)
      ensures var (e, out) := OnMessage(config, old(View()), m);
        View() == e && chat == old(chat) + out
    {
      match m
      case YouConnect(addrs, secret) => MsgYouConnect(addrs, secret);
      case CannotConnect => MsgCannotConnect();
      case CannotBind => MsgCannotBind();
      case YouRetry => MsgYouRetry();
    }
  }

  /** Nothing of one side is the other's. */
  ghost predicate Apart(a: Endpoint, b: Endpoint)
    reads a, b, a.client, b.client
  {
    a != b && a.client != b.client && a.client.table.peers !! b.client.table.peers
  }

  /** The oldest message that one side has sent reaches the other. */
  method DeliverNext(from: Endpoint, to: Endpoint)
    requires from.Valid() && to.Valid() && Apart(from, to) && from.chat != []
    modifies from`chat, to, to.client, to.client.table.peers
    ensures from.Valid() && to.Valid() && Apart(from, to) && from.View() == old(from.View())
    ensures from.client.table.peers == old(from.client.table.peers) && to.client.table.peers == old(to.client.table.peers)
    ensures var (e, out) := OnMessage(to.config, old(to.View()), old(from.chat)[0]);
      to.View() == e && from.chat == old(from.chat)[1..] && to.chat == old(to.chat) + out
  {
    var first := from.chat[0];
    from.chat := from.chat[1..];
    to.Deliver(first);
  }

  /** Both sides and their channels. */
  ghost function Both(master: Endpoint, slave: Endpoint): System
    reads master, slave, master.peer, slave.peer
  {
    System(master.View(), slave.View(), slave.chat, master.chat)
  }

  /** Where the two are, wrapped so that the methods carry it along by name. */
  ghost predicate Stand(m: Config, s: Config, me: End, se: End, y: System, ph: Phase, w: nat := 3) {
    if w == 0 then At(m, s, me, se, y, ph) && Left(m, s, ph) >= 0 else Stand(m, s, me, se, y, ph, w - 1)
  }

  lemma {:induction false} StandOpen(m: Config, s: Config, me: End, se: End, y: System, ph: Phase, w: nat := 3)
    requires Stand(m, s, me, se, y, ph, w)
    ensures At(m, s, me, se, y, ph) && Left(m, s, ph) >= 0
  {
    if w > 0 { StandOpen(m, s, me, se, y, ph, w - 1); }
  }

  lemma {:induction false} StandClose(m: Config, s: Config, me: End, se: End, y: System, ph: Phase, w: nat := 3)
    requires At(m, s, me, se, y, ph) && Left(m, s, ph) >= 0
    ensures Stand(m, s, me, se, y, ph, w)
  {
    if w > 0 { StandClose(m, s, me, se, y, ph, w - 1); }
  }

  /** The master's first step. */
  method Begin(master: Endpoint, slave: Endpoint) returns (ghost ph: Phase)
    requires master.Valid() && slave.Valid() && Apart(master, slave)
    requires master.master && !slave.master && master.chat == [] && slave.chat == []
    modifies master, master.client, master.client.table.peers
    ensures master.Valid() && slave.Valid() && Apart(master, slave) && Apart(slave, master)
    ensures master.client.table.peers == old(master.client.table.peers)
    ensures slave.client.table.peers == old(slave.client.table.peers)
    ensures Stand(master.config, slave.config, old(master.View()), old(slave.View()), Both(master, slave), ph)
    ensures Left(master.config, slave.config, ph) >= 0
    ensures Left(master.config, slave.config, ph) <= 2 * (|master.config.bindAddrs| + |slave.config.bindAddrs|) + 2
  {
    ph := StartAt(master.config, slave.config, master.View(), slave.View());
    master.ResetTimerHandler();
    StandClose(master.config, slave.config, old(master.View()), old(slave.View()), Both(master, slave), ph);
  }

  /** One delivery, to a side that something is on the way to. */
  method DeliverOne(master: Endpoint, slave: Endpoint, ghost me: End, ghost se: End, ghost ph: Phase)
    returns (ghost ph': Phase)
    requires master.Valid() && slave.Valid() && Apart(master, slave) && Apart(slave, master)
    requires master.chat != [] || slave.chat != []
    requires Stand(master.config, slave.config, me, se, Both(master, slave), ph)
    modifies master, slave, master.client, slave.client, master.client.table.peers, slave.client.table.peers
    ensures master.Valid() && slave.Valid() && Apart(master, slave) && Apart(slave, master)
    ensures master.client.table.peers == old(master.client.table.peers)
    ensures slave.client.table.peers == old(slave.client.table.peers)
    ensures Stand(master.config, slave.config, me, se, Both(master, slave), ph')
    ensures 0 <= Left(master.config, slave.config, ph') < Left(master.config, slave.config, ph)
  {
    ghost var y := Both(master, slave);
    StandOpen(master.config, slave.config, me, se, y, ph);
    if master.chat != [] {
      ph' := SlaveStepAt(master.config, slave.config, me, se, y, ph);
      DeliverNext(master, slave);
      assert Both(master, slave) == SlaveStep(slave.config, y);
    } else {
      ph' := MasterStepAt(master.config, slave.config, me, se, y, ph);
      DeliverNext(slave, master);
      assert Both(master, slave) == MasterStep(master.config, y);
    }
    StandClose(master.config, slave.config, me, se, Both(master, slave), ph');
  }

  /**
   The setup starts, whatever the two sides have been doing, with nothing on the way: they stop, whichever message
   comes first, and agree.
   */
  method Converse(master: Endpoint, slave: Endpoint) returns (deliveries: nat)
    requires master.Valid() && slave.Valid() && Apart(master, slave)
    requires master.master && !slave.master && master.chat == [] && slave.chat == []
    modifies master, slave, master.client, slave.client, master.client.table.peers, slave.client.table.peers
    ensures master.Valid() && slave.Valid() && Apart(master, slave) && master.chat == [] && slave.chat == []
    ensures Agreement(master.config, slave.config, old(master.View()), old(slave.View()), master.View(), slave.View())
    ensures deliveries <= 2 * (|master.config.bindAddrs| + |slave.config.bindAddrs|) + 2
  {
    ghost var m, s, me, se := master.config, slave.config, master.View(), slave.View();
    ghost var masterPeers, slavePeers := master.client.table.peers, slave.client.table.peers;
    ghost var ph := Begin(master, slave);
    deliveries := 0;
    while master.chat != [] || slave.chat != []
      invariant master.Valid() && slave.Valid() && Apart(master, slave) && Apart(slave, master)
      invariant master.client.table.peers == masterPeers && slave.client.table.peers == slavePeers
      invariant Stand(m, s, me, se, Both(master, slave), ph) && Left(m, s, ph) >= 0
      invariant deliveries + Left(m, s, ph) <= 2 * (|m.bindAddrs| + |s.bindAddrs|) + 2
      decreases Left(m, s, ph)
    {
      ph := DeliverOne(master, slave, me, se, ph);
      deliveries := deliveries + 1;
    }
    StandOpen(m, s, me, se, Both(master, slave), ph);
    AtAgrees(m, s, me, se, Both(master, slave), ph);
  }

  /** Two machines that hear of each other. */
  method Meet(m: Config, s: Config, masterServes: bool, slaveServes: bool) returns (master: Endpoint, slave: Endpoint)
    ensures master.Valid() && slave.Valid() && Apart(master, slave)
    ensures master.config == m && slave.config == s && master.chat == [] && slave.chat == []
    ensures Agreement(m, s, IDLE_MASTER, IDLE_SLAVE, master.View(), slave.View())
  {
    var here := new Client();
    var there := new Client();
    master := new Endpoint(here, m, true, masterServes);
    slave := new Endpoint(there, s, false, slaveServes);
    var deliveries := Converse(master, slave);
  }

  lemma {:induction false} NoMore(c: Config, e: End)
    requires e.addrpos == |c.bindAddrs|
    ensures Setup.Bind(c, e) == GiveUp(e)
  {
  }
}
