/** The handlers of client.c that keep the relay bookkeeping, on the fields they rewrite. */
module RelayClient {
  import opened Common
  import opened Relay

  /** The fields of p say what the table says. */
  ghost predicate Shown(p: Peer, t: Table)
    reads p
  {
    && p.haveLink == (p in t.linked) && p.waitingRelay == (p in t.waiting) && p.isRelay == (p in t.relays)
    && p.relayingPeer == (if p in t.via then t.via[p] else null)
    && (p in t.users ==> p.relayUsers == t.users[p])
  }

  /** All of them do; wrapped so that the methods carry it along by name. */
  ghost predicate Mirrors(t: Table, w: nat := 3)
    reads t.peers
  {
    if w == 0 then forall p :: p in t.peers ==> Shown(p, t) else Mirrors(t, w - 1)
  }

  lemma {:induction false} MirrorsOpen(t: Table, w: nat := 3)
    requires Mirrors(t, w)
    ensures forall p :: p in t.peers ==> Shown(p, t)
  {
    if w > 0 { MirrorsOpen(t, w - 1); }
  }

  lemma {:induction false} MirrorsClose(t: Table, w: nat := 3)
    requires forall p :: p in t.peers ==> Shown(p, t)
    ensures Mirrors(t, w)
  {
    if w > 0 { MirrorsClose(t, w - 1); }
  }

  /** The globals of client.c that the bookkeeping uses. */
  class Client {
    var relays: seq<Peer>
    var waitingRelayPeers: seq<Peer>
    ghost var table: Table

    /** What holds at every point of a handler. */
    ghost predicate Consistent()
      reads this, table.peers
    {
      Sound(table) && Mirrors(table) && relays == table.relays && waitingRelayPeers == table.waiting
    }

    /** What holds between handlers. */
    ghost predicate Valid()
      reads this, table.peers
    {
      Consistent() && Settled(table)
    }

    constructor ()
      ensures Valid() && table == START
    {
      relays, waitingRelayPeers, table := [], [], START;
      new;
      SoundClose(START);
      MirrorsClose(START);
    }

    method RegisterNeedRelay(peer: Peer)
      requires Consistent() && peer in table.peers
      requires !peer.waitingRelay && !peer.haveLink && peer.relayingPeer == null && !peer.isRelay
      modifies this, peer
      ensures Consistent() && table == Registered(old(table), peer)
    {
      MirrorsOpen(table);
      RegisteredSound(table, peer);
      waitingRelayPeers := waitingRelayPeers + [peer];
      peer.waitingRelay := true;
      table := Registered(table, peer);
      MirrorsClose(table);
    }

    method UnregisterNeedRelay(peer: Peer)
      requires Consistent() && peer in table.peers && peer.waitingRelay
      modifies this, peer
      ensures Consistent() && table == Unregistered(old(table), peer)
    {
      MirrorsOpen(table);
      assert NoDuplicates(table.waiting) by { SoundOpen(table); }
      MinusKeeps(table.waiting, peer);
      UnregisteredSound(table, peer);
      waitingRelayPeers := Minus(waitingRelayPeers, peer);
      peer.waitingRelay := false;
      table := Unregistered(table, peer);
      MirrorsClose(table);
    }

    method InstallRelaying(peer: Peer, relay: Peer)
      requires Consistent() && peer in table.peers && relay in table.peers
      requires peer.relayingPeer == null && !peer.haveLink && !peer.waitingRelay && relay.isRelay
      modifies this, peer, relay
      ensures Consistent() && table == Installed(old(table), peer, relay)
    {
      MirrorsOpen(table);
      assert relay in table.users && peer !in table.users && peer != relay by { SoundOpen(table); }
      InstalledSound(table, peer, relay);
      relay.relayUsers := relay.relayUsers + [peer];
      peer.relayingPeer := relay;
      table := Installed(table, peer, relay);
      MirrorsClose(table);
    }

    method FreeRelaying(peer: Peer)
      requires Consistent() && peer in table.peers && peer.relayingPeer != null
      modifies this, peer, peer.relayingPeer
      ensures Consistent() && table == Released(old(table), peer)
    {
      MirrorsOpen(table);
      var relay := peer.relayingPeer;
      ReleasedSound(table, peer);
      assert relay in table.peers && peer !in table.users && peer != relay by { SoundOpen(table); }
      relay.relayUsers := Minus(relay.relayUsers, peer);
      peer.relayingPeer := null;
      table := Released(table, peer);
      MirrorsClose(table);
    }

    /** The end of peer_init_link */
    method SetLink(peer: Peer)
      requires Consistent() && peer in table.peers && !peer.haveLink && peer.relayingPeer == null && !peer.waitingRelay
      modifies this, peer
      ensures Consistent() && table == Linked(old(table), peer)
    {
      MirrorsOpen(table);
      LinkedSound(table, peer);
      peer.haveLink := true;
      table := Linked(table, peer);
      MirrorsClose(table);
    }

    method FreeLink(peer: Peer)
      requires Consistent() && peer in table.peers && peer.haveLink && !peer.isRelay
      modifies this, peer
      ensures Consistent() && table == Unlinked(old(table), peer)
    {
      MirrorsOpen(table);
      UnlinkedSound(table, peer);
      peer.haveLink := false;
      table := Unlinked(table, peer);
      MirrorsClose(table);
    }

    method AssignRelays()
      requires Consistent()
      modifies this, table.peers
      ensures Valid() && table == Assigned(old(table))
    {
      ghost var t := table;
      AssignedSound(t);
      while waitingRelayPeers != []
        invariant Consistent() && Assigned(table) == Assigned(t) && table.peers == old(table.peers)
        decreases |waitingRelayPeers|
      {
        var peer := waitingRelayPeers[0];
        if relays == [] {
          AssignedNone(table);
          return;
        }
        var relay := relays[0];
        AssignOne(peer, relay);
      }
      AssignedNone(table);
    }

    /** One round of the loop of assign_relays */
    method AssignOne(peer: Peer, relay: Peer)
      requires Consistent() && waitingRelayPeers != [] && relays != []
      requires peer == waitingRelayPeers[0] && relay == relays[0]
      modifies this, table.peers
      ensures Consistent() && table.peers == old(table.peers) && Assigned(table) == Assigned(old(table))
      ensures waitingRelayPeers == old(waitingRelayPeers)[1..]
    {
      AssignedNext(table, peer, relay, Installed(Unregistered(table, peer), peer, relay));
      assert relay in table.peers && peer in table.peers by { SoundOpen(table); }
      MirrorsOpen(table);
      UnregisterNeedRelay(peer);
      MirrorsOpen(table);
      InstallRelaying(peer, relay);
    }

    method EnableRelayProvider(peer: Peer)
      requires Consistent() && peer in table.peers && peer.haveLink && !peer.isRelay
      modifies this, table.peers
      ensures Valid() && table == Enabled(old(table), peer)
    {
      AddRelay(peer);
      AssignRelays();
    }

    method AddRelay(peer: Peer)
      requires Consistent() && peer in table.peers && peer.haveLink && !peer.isRelay
      modifies this, peer
      ensures Consistent() && table == Opened(old(table), peer)
    {
      MirrorsOpen(table);
      OpenedSound(table, peer);
      relays := relays + [peer];
      peer.relayUsers := [];
      peer.isRelay := true;
      table := Opened(table, peer);
      MirrorsClose(table);
    }

    method DisableRelayProvider(peer: Peer)
      requires Consistent() && peer in table.peers && peer.isRelay
      modifies this, table.peers
      ensures Valid() && table == Disabled(old(table), peer)
    {
      ghost var t := table;
      MirrorsOpen(table);
      assert peer in table.users by { SoundOpen(table); }
      while peer.relayUsers != []
        invariant Consistent() && peer in table.relays && peer in table.users && peer.relayUsers == table.users[peer]
        invariant Dropped(table, peer) == Dropped(t, peer) && table.peers == old(table.peers)
        decreases |peer.relayUsers|
      {
        DropOne(peer, peer.relayUsers[0]);
      }
      DroppedNone(table, peer);
      MirrorsOpen(table);
      assert peer in table.peers by { SoundOpen(table); }
      RemoveRelay(peer);
      AssignRelays();
      DisabledIs(t, peer);
    }

    /** One round of the loop of peer_disable_relay_provider */
    method DropOne(peer: Peer, user: Peer)
      requires Consistent() && peer in table.peers && peer in table.relays && peer in table.users
      requires peer.relayUsers == table.users[peer] && peer.relayUsers != [] && user == peer.relayUsers[0]
      modifies this, table.peers
      ensures Consistent() && table.peers == old(table.peers) && peer in table.relays && peer in table.users
      ensures Dropped(table, peer) == Dropped(old(table), peer)
      ensures peer.relayUsers == table.users[peer] && |peer.relayUsers| < |old(peer.relayUsers)|
    {
      DroppedNext(table, peer, user, Registered(Released(table, user), user));
      MirrorsOpen(table);
      assert user !in table.relays by { SoundOpen(table); }
      FreeRelaying(user);
      MirrorsOpen(table);
      RegisterNeedRelay(user);
      MirrorsOpen(table);
    }

    method RemoveRelay(peer: Peer)
      requires Consistent() && peer in table.peers && peer.isRelay && peer.relayUsers == [] && peer in table.users
      modifies this, peer
      ensures Consistent() && table == Closed(old(table), peer)
    {
      MirrorsOpen(table);
      ClosedSound(table, peer);
      assert NoDuplicates(table.relays) by { SoundOpen(table); }
      MinusKeeps(table.relays, peer);
      relays := Minus(relays, peer);
      peer.isRelay := false;
      table := Closed(table, peer);
      MirrorsClose(table);
    }

    method CleanupConnections(peer: Peer)
      requires Valid() && peer in table.peers
      modifies this, table.peers
      ensures Valid() && table == Cleaned(old(table), peer) && table.peers == old(table.peers)
      ensures !peer.haveLink && peer.relayingPeer == null && !peer.waitingRelay && !peer.isRelay
    {
      CleanedSound(table, peer);
      MirrorsOpen(table);
      if peer.haveLink {
        if peer.isRelay {
          DisabledSound(table, peer);
          DisableRelayProvider(peer);
          MirrorsOpen(table);
        }
        FreeLink(peer);
      } else if peer.relayingPeer != null {
        assert peer.relayingPeer in table.peers by { SoundOpen(table); }
        FreeRelaying(peer);
      } else if peer.waitingRelay {
        UnregisterNeedRelay(peer);
      }
      MirrorsOpen(table);
    }

    method NeedRelay(peer: Peer)
      requires Valid() && peer in table.peers && !peer.isRelay
      modifies this, table.peers
      ensures Valid() && table == Needing(old(table), peer) && table.peers == old(table.peers)
      ensures !peer.haveLink && !peer.isRelay && (peer.waitingRelay || peer.relayingPeer != null)
    {
      MirrorsOpen(table);
      NeedingSound(table, peer);
      if peer.waitingRelay {
        SoundOpen(table);
        return;
      }
      LeaveCurrent(peer);
      MirrorsOpen(table);
      RegisterNeedRelay(peer);
      AssignRelays();
      MirrorsOpen(table);
      SoundOpen(table);
    }

    /** The middle of peer_need_relay */
    method LeaveCurrent(peer: Peer)
      requires Consistent() && peer in table.peers && !peer.isRelay && !peer.waitingRelay
      modifies this, table.peers
      ensures Consistent()
      ensures var t := old(table);
        table == if peer in t.linked then Unlinked(t, peer) else if peer in t.via then Released(t, peer) else t
      ensures !peer.haveLink && peer.relayingPeer == null && !peer.isRelay && !peer.waitingRelay
    {
      MirrorsOpen(table);
      SoundOpen(table);
      if peer.haveLink {
        FreeLink(peer);
      } else if peer.relayingPeer != null {
        FreeRelaying(peer);
      }
      MirrorsOpen(table);
    }

    // ---------- the handlers ----------

    method AddPeer(relayServer: bool) returns (peer: Peer)
      requires Valid()
      modifies this
      ensures fresh(peer) && peer.relayServer == relayServer
      ensures !peer.haveLink && peer.relayingPeer == null && !peer.waitingRelay && !peer.isRelay
      ensures Valid() && table == Apply(old(table), Add(peer))
    {
      peer := new Peer(relayServer);
      MirrorsOpen(table);
      SoundOpen(table);
      ApplySound(table, Add(peer));
      table := Apply(table, Add(peer));
      MirrorsClose(table);
    }

    method RemovePeer(peer: Peer)
      requires Valid() && peer in table.peers
      modifies this, table.peers
      ensures Valid() && table == Apply(old(table), Remove(peer))
    {
      ApplySound(table, Remove(peer));
      CleanupConnections(peer);
      MirrorsOpen(table);
      table := table.(peers := table.peers - {peer});
      MirrorsClose(table);
    }

    /** "Get a fresh link": peer_init_link may fail, and then the caller resets the peer. */
    method FreshLink(peer: Peer, works: bool)
      requires Valid() && peer in table.peers
      modifies this, table.peers
      ensures Valid() && table == Apply(old(table), if works then Fresh(peer) else Reset(peer))
      ensures table.peers == old(table.peers)
      ensures peer.haveLink == works && peer.relayingPeer == null && !peer.waitingRelay && !peer.isRelay
    {
      ApplySound(table, if works then Fresh(peer) else Reset(peer));
      CleanedSound(table, peer);
      CleanupConnections(peer);
      if works {
        SetLink(peer);
      }
      MirrorsOpen(table);
    }

    /** The part of peer_reset that concerns connections */
    method ResetPeer(peer: Peer)
      requires Valid() && peer in table.peers
      modifies this, table.peers
      ensures Valid() && table == Apply(old(table), Reset(peer)) && table.peers == old(table.peers)
      ensures !peer.haveLink && peer.relayingPeer == null && !peer.waitingRelay && !peer.isRelay
    {
      CleanupConnections(peer);
    }

    method DataprotoHandler(peer: Peer, up: bool)
      requires Valid() && peer in table.peers && peer.haveLink
      modifies this, table.peers
      ensures Valid() && table == Apply(old(table), if up then Up(peer, peer.relayServer) else Down(peer))
      ensures table.peers == old(table.peers) && peer.haveLink
      ensures peer.isRelay == (up && (old(peer.isRelay) || peer.relayServer))
    {
      MirrorsOpen(table);
      if up {
        UpExact(table, peer, peer.relayServer);
        if peer.relayServer && !peer.isRelay {
          EnableRelayProvider(peer);
        }
      } else {
        DownExact(table, peer);
        if peer.isRelay {
          DisableRelayProvider(peer);
        }
      }
      MirrorsOpen(table);
    }
  }

  lemma {:induction false} DroppedNone(t: Table, r: Peer)
    requires r in t.users && UsersOf(t, r) == []
    ensures Dropped(t, r) == t
  {
    assert Dropped(t, r).users == t.users;
    assert Dropped(t, r).via == t.via;
  }
}
