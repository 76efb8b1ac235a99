/** FrameDecider.c: which peers a frame from the local device goes to. */
module FrameDecider {
  import opened Bytes
  import opened Common
  import MacTable
  import Multicast
  import GroupTable

  const BROADCAST: bytes := [255, 255, 255, 255, 255, 255]
  const MULTICAST_HEADER: bytes := [1, 0, 94]

  /** compute_sig_for_mac: the low 23 bits of the address */
  function SigOfMac(mac: bytes): nat
    requires |mac| == 6
  {
    (((mac[2] as nat * 256 + mac[3] as nat) * 256 + mac[4] as nat) * 256 + mac[5] as nat) % Multicast.SIG_LIMIT
  }

  /** A group address and the MAC address that it is mapped to have the same signature. */
  lemma {:induction false} SigOfMappedMac(group: nat, mac: bytes)
    requires |mac| == 6 && mac[..3] == MULTICAST_HEADER
    requires mac[3] as nat == group / 65536 % 128 && mac[4] as nat == group / 256 % 256 && mac[5] as nat == group % 256
    ensures SigOfMac(mac) == Multicast.Sig(group)
  {
    assert mac[2] == mac[..3][2];
    LowBits(group);
    var low := (mac[3] as nat * 256 + mac[4] as nat) * 256 + mac[5] as nat;
    assert ((mac[2] as nat * 256 + mac[3] as nat) * 256 + mac[4] as nat) * 256 + mac[5] as nat == 188 * 8388608 + low;
  }

  /** The low 23 bits of a group and of an address, in bytes. */
  lemma {:induction false} SigExact(group: nat, mac: bytes)
    requires |mac| == 6
    ensures Multicast.Sig(group) == (group / 65536 % 128) * 65536 + (group / 256 % 256) * 256 + group % 256
    ensures SigOfMac(mac) == (mac[3] as nat % 128) * 65536 + mac[4] as nat * 256 + mac[5] as nat
  {
    LowBits(group);
    SigBytes(mac[2] as nat, mac[3] as nat, mac[4] as nat, mac[5] as nat);
  }

  lemma {:induction false} SigBytes(a: nat, b: nat, c: nat, d: nat)
    requires c < 256 && d < 256
    ensures (((a * 256 + b) * 256 + c) * 256 + d) % Multicast.SIG_LIMIT == (b % 128) * 65536 + c * 256 + d
  {
    var h := a * 256 + b;
    Quarters(h, c, d);
    assert h % 128 == b % 128 by {
      assert h == 128 * (2 * a) + b;
    }
    assert ((h * 256) + c) * 256 + d == h * 65536 + c * 256 + d;
  }

  predicate SameLowBits(group: nat, mac: bytes)
    requires |mac| == 6
  {
    && group / 65536 % 128 == mac[3] as nat % 128 && group / 256 % 256 == mac[4] as nat && group % 256 == mac[5] as nat
  }

  lemma {:induction false} LowBits(x: nat)
    ensures x % Multicast.SIG_LIMIT == (x / 65536 % 128) * 65536 + (x / 256 % 256) * 256 + x % 256
  {
    var a, b := x / 65536, x / 256;
    Halves(x);
    Quarters(a, b % 256, x % 256);
  }

  lemma {:induction false} Halves(x: nat)
    ensures x == (x / 65536) * 65536 + (x / 256 % 256) * 256 + x % 256
  {
    var b := x / 256;
    assert x == b * 256 + x % 256;
    assert b == (b / 256) * 256 + b % 256 && b / 256 == x / 65536;
  }

  lemma {:induction false} Quarters(a: nat, b: nat, c: nat)
    requires b < 256 && c < 256
    ensures (a * 65536 + b * 256 + c) % 8388608 == (a % 128) * 65536 + b * 256 + c
  {
    var h, l := a / 128, a % 128;
    assert a == h * 128 + l;
    assert a * 65536 + b * 256 + c == h * 8388608 + (l * 65536 + b * 256 + c);
  }

  /** A FrameDeciderPeer: what the rest of the program knows it by, and its two tables. */
  datatype Peer = Peer(user: nat, macs: MacTable.MacPeer, groups: Multicast.GroupPeer)

  datatype DecideState =
    | DecideNone
    | DecideUnicast(peer: MacTable.MacPeer)
    | DecideFlood(current: nat)
    | DecideMulticast // at the iterator of the multicast index

  function Users(peers: seq<Peer>): (r: seq<nat>)
    ensures |r| == |peers| && forall i :: 0 <= i < |r| ==> r[i] == peers[i].user
  {
    seq(|peers|, i requires 0 <= i < |peers| => peers[i].user)
  }

  ghost function UsersOf(peers: seq<Multicast.GroupPeer>): (r: seq<nat>)
    ensures |r| == |peers| && forall i :: 0 <= i < |r| ==> r[i] == peers[i].user
  {
    seq(|peers|, i requires 0 <= i < |peers| => peers[i].user)
  }

  ghost predicate SamePeers(peers: seq<Peer>, m: seq<MacTable.Shelf>, g: seq<GroupTable.Shelf>) {
    && |peers| == |m| == |g|
    && forall i :: 0 <= i < |peers| ==>
      && peers[i].macs == m[i].peer && peers[i].groups == g[i].peer
      && peers[i].user == peers[i].macs.user == peers[i].groups.user
  }

  lemma {:induction false} OneMorePeer(peers: seq<Peer>, m: seq<MacTable.Shelf>, g: seq<GroupTable.Shelf>, p: Peer,
                                       m': seq<MacTable.Shelf>, g': seq<GroupTable.Shelf>)
    requires SamePeers(peers, m, g) && |m'| == |m| + 1 && |g'| == |g| + 1 && m'[..|m|] == m && g'[..|g|] == g
    requires p.macs == m'[|m|].peer && p.groups == g'[|g|].peer && p.user == p.macs.user == p.groups.user
    ensures SamePeers(peers + [p], m', g')
  {
    assert forall i :: 0 <= i < |m| ==> m'[i] == m'[..|m|][i] && g'[i] == g'[..|g|][i];
  }

  lemma {:induction false} OneLessPeer(peers: seq<Peer>, m: seq<MacTable.Shelf>, g: seq<GroupTable.Shelf>, k: nat)
    requires SamePeers(peers, m, g) && k < |peers|
    ensures SamePeers(Without(peers, k), Without(m, k), Without(g, k))
  {
  }

  /** The users that a decision still names, with the peers there are and those the iterator has yet to visit. */
  ghost function Named(state: DecideState, peers: seq<Peer>, rest: seq<Multicast.GroupPeer>): seq<nat> {
    match state
    case DecideNone => []
    case DecideUnicast(p) => [p.user]
    case DecideFlood(k) => if k <= |peers| then Users(peers[k..]) else []
    case DecideMulticast => UsersOf(rest)
  }

  /** A decision once peer k has gone. */
  function StateWithout(state: DecideState, peers: seq<Peer>, k: nat): DecideState
    requires k < |peers|
  {
    match state
    case DecideUnicast(p) => if p == peers[k].macs then DecideNone else state
    case DecideFlood(c) => if c > k then DecideFlood(c - 1) else state
    case _ => state
  }

  /** It names whom it named before, but for that peer. */
  ghost function NamedWithout(state: DecideState, peers: seq<Peer>, k: nat, rest: seq<Multicast.GroupEntry>): seq<nat>
    requires k < |peers|
  {
    match state
    case DecideNone => []
    case DecideUnicast(p) => if p == peers[k].macs then [] else [p.user]
    case DecideFlood(c) => if c > |peers| then [] else Users(if c <= k then Without(peers[c..], k - c) else peers[c..])
    case DecideMulticast => UsersOf(GroupTable.PeersOf(GroupTable.OthersOf(rest, peers[k].groups)))
  }

  lemma {:induction false} NamedAfter(state: DecideState, peers: seq<Peer>, k: nat, rest: seq<Multicast.GroupEntry>)
    requires k < |peers| && (state.DecideFlood? ==> state.current <= |peers|)
    ensures Named(StateWithout(state, peers, k), Without(peers, k),
                  GroupTable.PeersOf(GroupTable.OthersOf(rest, peers[k].groups))) == NamedWithout(state, peers, k, rest)
  {
    match state
    case DecideFlood(c) =>
      FloodWithout(peers, k, c);
      assert Named(state, peers, []) == Users(peers[c..]);
    case _ =>
  }

  lemma {:induction false} FloodWithout(peers: seq<Peer>, k: nat, c: nat)
    requires k < |peers| && c <= |peers|
    ensures c <= k ==> Without(peers, k)[c..] == Without(peers[c..], k - c)
    ensures c > k ==> Without(peers, k)[c - 1..] == peers[c..]
  {
  }

  /** The users other than u, in order. */
  function Except(us: seq<nat>, u: nat): seq<nat> {
    if us == [] then [] else (if us[0] == u then [] else [us[0]]) + Except(us[1..], u)
  }

  lemma {:induction false} ExceptNone(us: seq<nat>, u: nat)
    requires u !in us
    ensures Except(us, u) == us
  {
    if us != [] { ExceptNone(us[1..], u); }
  }

  lemma {:induction false} ExceptOne(us: seq<nat>, j: nat)
    requires j < |us| && NoDuplicates(us)
    ensures Except(us, us[j]) == Without(us, j)
  {
    if j == 0 {
      ExceptNone(us[1..], us[0]);
    } else {
      ExceptOne(us[1..], j - 1);
      assert Without(us, j) == [us[0]] + Without(us[1..], j - 1);
    }
  }

  /** The peers are told apart by their users, and the decision is about peers in the list. */
  ghost predicate Known(state: DecideState, peers: seq<Peer>, rest: seq<Multicast.GroupEntry>) {
    && NoDuplicates(Users(peers)) && (state.DecideFlood? ==> state.current <= |peers|)
    && (forall i :: 0 <= i < |peers| ==> peers[i].user == peers[i].macs.user == peers[i].groups.user)
    && (state.DecideUnicast? ==> exists i :: 0 <= i < |peers| && peers[i].macs == state.peer)
    && forall e <- rest :: exists i :: 0 <= i < |peers| && peers[i].groups == e.peer
  }

  /** Once a peer has gone, a decision names whom it named before, in the same order, except for that peer. */
  lemma {:induction false} NamedExcept(state: DecideState, peers: seq<Peer>, k: nat, rest: seq<Multicast.GroupEntry>)
    requires k < |peers| && Known(state, peers, rest)
    ensures NamedWithout(state, peers, k, rest) == Except(Named(state, peers, GroupTable.PeersOf(rest)), peers[k].user)
  {
    match state
    case DecideNone =>
    case DecideUnicast(p) =>
      OwnerExcept(peers, k, p);
    case DecideFlood(c) => FloodExcept(peers, k, c);
    case DecideMulticast => RestExcept(peers, k, rest);
  }

  lemma {:induction false} OwnerExcept(peers: seq<Peer>, k: nat, p: MacTable.MacPeer)
    requires k < |peers| && Known(DecideUnicast(p), peers, [])
    ensures (if p == peers[k].macs then [] else [p.user]) == Except([p.user], peers[k].user)
  {
    var i :| 0 <= i < |peers| && peers[i].macs == p;
    assert Users(peers)[i] == p.user && Users(peers)[k] == peers[k].user;
    assert Except([p.user][1..], peers[k].user) == [];
  }

  lemma {:induction false} FloodExcept(peers: seq<Peer>, k: nat, c: nat)
    requires k < |peers| && c <= |peers| && NoDuplicates(Users(peers))
    ensures Users(if c <= k then Without(peers[c..], k - c) else peers[c..]) == Except(Users(peers[c..]), peers[k].user)
  {
    var us := Users(peers[c..]);
    assert forall i :: 0 <= i < |us| ==> us[i] == Users(peers)[c + i];
    if c <= k {
      ExceptOne(us, k - c);
      assert Users(Without(peers[c..], k - c)) == Without(us, k - c);
    } else {
      assert Users(peers)[k] == peers[k].user;
      ExceptNone(us, peers[k].user);
    }
  }

  lemma {:induction false} RestExcept(peers: seq<Peer>, k: nat, rest: seq<Multicast.GroupEntry>)
    requires k < |peers| && Known(DecideMulticast, peers, rest)
    ensures UsersOf(GroupTable.PeersOf(GroupTable.OthersOf(rest, peers[k].groups)))
      == Except(UsersOf(GroupTable.PeersOf(rest)), peers[k].user)
  {
    if rest == [] {
      assert UsersOf(GroupTable.PeersOf(rest)) == [];
    } else {
      RestExcept(peers, k, rest[1..]);
      assert rest == [rest[0]] + rest[1..] && rest[0] in rest;
      NamesFirst(rest[0], rest[1..]);
      NamesFirst(rest[0], GroupTable.OthersOf(rest[1..], peers[k].groups));
      var i :| 0 <= i < |peers| && peers[i].groups == rest[0].peer;
      assert Users(peers)[i] == rest[0].peer.user && Users(peers)[k] == peers[k].user;
    }
  }

  lemma {:induction false} NamesFirst(e: Multicast.GroupEntry, rest: seq<Multicast.GroupEntry>)
    ensures UsersOf(GroupTable.PeersOf([e] + rest)) == [e.peer.user] + UsersOf(GroupTable.PeersOf(rest))
  {
  }

  /** Several joins of one peer, in order. */
  function JoinAll(t: GroupTable.Table, i: nat, reports: seq<nat>, max: nat): GroupTable.Table
    requires i < |t|
    decreases |reports|
  {
    if reports == [] then t else JoinAll(GroupTable.Join(t, i, reports[0], max), i, reports[1..], max)
  }

  lemma {:induction false} JoinAllSplit(t: GroupTable.Table, i: nat, reports: seq<nat>, more: seq<nat>, max: nat)
    requires i < |t|
    ensures |JoinAll(t, i, reports, max)| == |t|
    ensures JoinAll(t, i, reports + more, max) == JoinAll(JoinAll(t, i, reports, max), i, more, max)
    decreases |reports|
  {
    if reports == [] {
      assert [] + more == more;
    } else {
      assert (reports + more)[1..] == reports[1..] + more;
      JoinAllSplit(GroupTable.Join(t, i, reports[0], max), i, reports[1..], more, max);
    }
  }

  /** After a report the groups of other peers are what they were, and the group reported last is the peer's latest one. */
  lemma {:induction false} JoinAllExact(t: GroupTable.Table, i: nat, reports: seq<nat>, max: nat, j: nat)
    requires i < |t| && j < |t| && max > 0
    ensures |JoinAll(t, i, reports, max)| == |t| && (j != i || reports == [] ==> JoinAll(t, i, reports, max)[j] == t[j])
    ensures reports != [] ==> var l := JoinAll(t, i, reports, max)[i]; l != [] && l[|l| - 1] == reports[|reports| - 1]
    decreases |reports|
  {
    if reports != [] {
      var t' := GroupTable.Join(t, i, reports[0], max);
      JoinAllExact(t', i, reports[1..], max, j);
      if |reports| == 1 {
        assert JoinAll(t', i, [], max) == t';
      }
    }
  }

  class FrameDecider {
    const macs: MacTable.MacIndex
    const groups: GroupTable.Groups
    var peers: seq<Peer>
    var state: DecideState

    ghost function Objects(): set<object>
      reads macs, groups, groups.index
    {
      {macs, groups, groups.index} + macs.repr + groups.peers + groups.index.entries
    }

    /** The two tables, apart from one another. */
    ghost predicate Apart()
      reads macs, groups, groups.index, Objects()
    {
      && this !in Objects() && macs.Valid() && groups.Valid()
      && {groups as object, groups.index} + groups.peers + groups.index.entries !! {macs as object} + macs.repr
    }

    /** The peers list goes with both tables. */
    ghost predicate Aligned()
      reads `peers, `state, macs, groups, groups.index, Objects()
    {
      && Apart() && SamePeers(peers, macs.shelves, groups.shelves)
      && (state.DecideFlood? ==> state.current <= |peers|)
    }

    /** Aligned, wrapped so that the methods carry it along by name. */
    ghost predicate Valid(w: nat := 3)
      reads `peers, `state, macs, groups, groups.index, Objects()
    {
      this !in Objects() && if w == 0 then Aligned() else Valid(w - 1)
    }

    lemma {:induction false} ValidOpen(w: nat := 3)
      requires Valid(w)
      ensures Aligned()
    {
      if w > 0 { ValidOpen(w - 1); }
    }

    lemma {:induction false} ValidClose(w: nat := 3)
      requires Aligned()
      ensures Valid(w)
    {
      if w > 0 { ValidClose(w - 1); }
    }

    /** FrameDeciderPeer_Init */
    method AddPeer(user: nat)
      requires Valid()
      modifies `peers, macs, groups, groups.index
      ensures Valid() && Users(peers) == old(Users(peers)) + [user]
      ensures macs.Owners() == old(macs.Owners()) + [[]] && groups.Lists() == old(groups.Lists()) + [[]]
    {
      ValidOpen();
      ghost var ms, gs := macs.shelves, groups.shelves;
      var m, g := AddTables(user);
      OneMorePeer(peers, ms, gs, Peer(user, m, g), macs.shelves, groups.shelves);
      peers := peers + [Peer(user, m, g)];
      ValidClose();
    }

    method AddTables(user: nat) returns (m: MacTable.MacPeer, g: Multicast.GroupPeer)
      requires Apart()
      modifies macs, groups, groups.index
      ensures Apart() && m.user == user && g.user == user
      ensures macs.Owners() == old(macs.Owners()) + [[]] && groups.Lists() == old(groups.Lists()) + [[]]
      ensures |macs.shelves| == |old(macs.shelves)| + 1 && |groups.shelves| == |old(groups.shelves)| + 1
      ensures macs.shelves[|old(macs.shelves)|].peer == m && macs.shelves[..|old(macs.shelves)|] == old(macs.shelves)
      ensures groups.shelves[|old(groups.shelves)|].peer == g
      ensures groups.shelves[..|old(groups.shelves)|] == old(groups.shelves)
    {
      m := AddMacs(user);
      g := AddGroups(user);
    }

    method AddMacs(user: nat) returns (m: MacTable.MacPeer)
      requires Apart()
      modifies macs
      ensures Apart() && m.user == user && |macs.shelves| == |old(macs.shelves)| + 1
      ensures macs.Owners() == old(macs.Owners()) + [[]]
      ensures macs.shelves[|old(macs.shelves)|].peer == m && macs.shelves[..|old(macs.shelves)|] == old(macs.shelves)
    {
      assert allocated(Objects());
      m := macs.AddPeer(user);
    }

    method AddGroups(user: nat) returns (g: Multicast.GroupPeer)
      requires Apart()
      modifies groups, groups.index
      ensures Apart() && g.user == user && |groups.shelves| == |old(groups.shelves)| + 1
      ensures groups.Lists() == old(groups.Lists()) + [[]]
      ensures groups.shelves[|old(groups.shelves)|].peer == g
      ensures groups.shelves[..|old(groups.shelves)|] == old(groups.shelves)
    {
      assert allocated(Objects());
      g := groups.AddPeer(user);
    }

    /** FrameDeciderPeer_Analyze: the source address of a frame from peer k, and the groups that it reports */
    method Analyze(k: nat, source: bytes, reports: seq<nat>, now: int)
      requires Valid() && k < |peers|
      modifies macs, macs.repr, groups, groups.peers, groups.index, groups.index.entries
      ensures Valid() && |old(macs.Owners())| == |old(groups.Lists())| == |peers|
      ensures macs.Owners() == MacTable.Learn(old(macs.Owners()), k, source, macs.maxPeerMacs)
      ensures groups.Lists() == JoinAll(old(groups.Lists()), k, reports, groups.maxPeerGroups)
      ensures GroupTable.Renewed(old(groups.index.groups), old(groups.Times()), groups.index.groups, groups.Times(),
        peers[k].groups, reports, now + groups.membershipInterval)
    {
      LearnSource(k, source);
      ReportGroups(k, reports, now);
    }

    /** The groups of a membership report */
    method ReportGroups(k: nat, reports: seq<nat>, now: int)
      requires Valid() && k < |peers|
      modifies groups, groups.peers, groups.index, groups.index.entries
      ensures Valid() && macs.Owners() == old(macs.Owners()) && |old(groups.Lists())| == |peers|
      ensures groups.Lists() == JoinAll(old(groups.Lists()), k, reports, groups.maxPeerGroups)
      ensures GroupTable.Renewed(old(groups.index.groups), old(groups.Times()), groups.index.groups, groups.Times(),
        peers[k].groups, reports, now + groups.membershipInterval)
    {
      ghost var t, owners := groups.Lists(), macs.Owners();
      ghost var g0, t0, end := groups.index.groups, groups.Times(), now + groups.membershipInterval;
      NoneRenewed(peers[k].groups, end);
      TablesFit();
      for n := 0 to |reports|
        invariant Valid() && |groups.Lists()| == |t| && macs.Owners() == owners
        invariant groups.peers == old(groups.peers) && groups.index.entries == old(groups.index.entries)
        invariant GroupTable.Renewed(g0, t0, groups.index.groups, groups.Times(), peers[k].groups, reports[..n], end)
        invariant JoinAll(groups.Lists(), k, reports[n..], groups.maxPeerGroups) == JoinAll(t, k, reports, groups.maxPeerGroups)
      {
        ghost var g1, t1 := groups.index.groups, groups.Times();
        ReportGroup(k, reports[n], now);
        GroupTable.RenewedNext(g0, t0, g1, t1, groups.index.groups, groups.Times(), peers[k].groups, reports[..n], reports[n], end);
        assert reports[..n + 1] == reports[..n] + [reports[n]];
      }
      assert reports[..|reports|] == reports;
    }

    lemma {:induction false} TablesFit()
      requires Valid()
      ensures |groups.Lists()| == |macs.Owners()| == |peers|
    {
      ValidOpen();
    }

    lemma {:induction false} NoneRenewed(o: Multicast.GroupPeer, end: int)
      requires Valid()
      ensures GroupTable.Renewed(groups.index.groups, groups.Times(), groups.index.groups, groups.Times(), o, [], end)
    {
      ValidOpen();
      forall x <- groups.index.groups ensures x in groups.index.entries {
        groups.GroupOf(x);
      }
    }

    method LearnSource(k: nat, source: bytes)
      requires Valid() && k < |peers|
      modifies macs, macs.repr
      ensures Valid() && |old(macs.Owners())| == |groups.Lists()| == |peers|
      ensures groups.peers == old(groups.peers) && groups.index.entries == old(groups.index.entries)
      ensures groups.Lists() == old(groups.Lists())
      ensures groups.index.groups == old(groups.index.groups) && groups.Times() == old(groups.Times())
      ensures macs.Owners() == MacTable.Learn(old(macs.Owners()), k, source, macs.maxPeerMacs)
    {
      ValidOpen();
      macs.AddMacToPeer(peers[k].macs, source, k);
      ValidClose();
    }

    /** FrameDeciderPeer_Free; a decision under way does not name the peer any more. */
    method FreePeer(k: nat)
      requires Valid() && k < |peers|
      modifies `peers, `state, macs, groups, groups.index, groups.index.entries
      ensures Valid() && peers == Without(old(peers), k)
      ensures |old(macs.Owners())| == |old(groups.Lists())| == |old(peers)|
      ensures macs.Owners() == Without(old(macs.Owners()), k) && groups.Lists() == Without(old(groups.Lists()), k)
      ensures state == StateWithout(old(state), old(peers), k)
      ensures Remaining() == NamedWithout(old(state), old(peers), k, old(groups.index.Rest()))
    {
      ValidOpen();
      NamedAfter(state, peers, k, groups.index.Rest());
      FreeTables(k);
      if state == DecideUnicast(peers[k].macs) {
        state := DecideNone;
      } else if state.DecideFlood? && state.current > k {
        state := DecideFlood(state.current - 1);
      }
      peers := Without(peers, k);
      RemainingIs();
      ValidClose();
    }

    /** The timer of a group entry: remove_group_entry. A multicast decision under way does not name the entry any more. */
    method Expire(e: Multicast.GroupEntry) returns (ghost i: nat)
      requires Valid() && e in groups.index.groups
      modifies groups, groups.peers, groups.index, groups.index.entries
      ensures Valid() && i < |peers| && peers[i].groups == e.peer && |old(groups.Lists())| == |peers|
      ensures groups.Lists() == GroupTable.Leave(old(groups.Lists()), i, old(groups.index.groups)[e])
      ensures macs.Owners() == old(macs.Owners())
      ensures forall x <- old(groups.index.entries) :: x.endTime == old(x.endTime)
      ensures groups.index.Rest() == Minus(old(groups.index.Rest()), e)
      ensures Remaining() == if state.DecideMulticast? then UsersOf(GroupTable.PeersOf(groups.index.Rest()))
        else old(Remaining())
    {
      ValidOpen();
      RemainingIs();
      groups.GroupOf(e);
      i := groups.RemoveGroupEntry(e);
      RemainingIs();
      ValidClose();
    }

    method FreeTables(k: nat)
      requires Aligned() && k < |peers|
      modifies macs, groups, groups.index, groups.index.entries
      ensures Apart() && SamePeers(Without(peers, k), macs.shelves, groups.shelves)
      ensures groups.index.Rest() == GroupTable.OthersOf(old(groups.index.Rest()), peers[k].groups)
      ensures |old(macs.Owners())| == |old(groups.Lists())| == |old(peers)|
      ensures macs.Owners() == Without(old(macs.Owners()), k) && groups.Lists() == Without(old(groups.Lists()), k)
    {
      OneLessPeer(peers, macs.shelves, groups.shelves, k);
      FreeGroups(peers[k].groups, k);
      FreeMacs(peers[k].macs, k);
    }

    method FreeGroups(o: Multicast.GroupPeer, ghost k: nat)
      requires Apart() && k < |groups.shelves| && groups.shelves[k].peer == o
      modifies groups, groups.index, groups.index.entries
      ensures Apart() && groups.shelves == Without(old(groups.shelves), k)
      ensures groups.Lists() == Without(old(groups.Lists()), k)
      ensures groups.index.Rest() == GroupTable.OthersOf(old(groups.index.Rest()), o)
    {
      groups.RemovePeer(o, k);
    }

    method FreeMacs(o: MacTable.MacPeer, ghost k: nat)
      requires Apart() && k < |macs.shelves| && macs.shelves[k].peer == o
      modifies macs
      ensures Apart() && macs.shelves == Without(old(macs.shelves), k)
      ensures macs.Owners() == Without(old(macs.Owners()), k)
    {
      macs.RemovePeer(o, k);
    }

    method ReportGroup(k: nat, group: nat, now: int)
      requires Valid() && k < |peers|
      modifies groups, groups.peers, groups.index, groups.index.entries
      ensures Valid() && groups.peers == old(groups.peers) && groups.index.entries == old(groups.index.entries)
      ensures macs.Owners() == old(macs.Owners())
      ensures |old(groups.Lists())| == |peers| && groups.Lists() == GroupTable.Join(old(groups.Lists()), k, group, groups.maxPeerGroups)
      ensures GroupTable.Renewed(old(groups.index.groups), old(groups.Times()), groups.index.groups, groups.Times(),
        peers[k].groups, [group], now + groups.membershipInterval)
    {
      ValidOpen();
      groups.AddGroupToPeer(peers[k].groups, group, now, k);
      ValidClose();
    }

    /** Where a frame goes, by its destination address and whether it is IGMP. */
    ghost predicate Decides(dest: bytes, igmp: bool, to: seq<nat>)
      requires |dest| == 6
      reads `peers, macs, groups, groups.index
    {
      if igmp || dest == BROADCAST then to == Users(peers)
      else if dest[..3] == MULTICAST_HEADER then to == UsersOf(groups.Destinations(SigOfMac(dest)))
      else if exists i :: 0 <= i < |peers| && i < |macs.Owners()| && dest in macs.Owners()[i] then Owned(dest, to)
      else to == Users(peers)
    }

    /** The one destination is a peer that owns the address. */
    ghost predicate Owned(dest: bytes, to: seq<nat>)
      reads `peers, macs
    {
      exists i :: 0 <= i < |peers| && i < |macs.Owners()| && dest in macs.Owners()[i] && to == [peers[i].user]
    }

    /** The users that NextDestination has yet to name. */
    ghost function RemainingNow(): seq<nat>
      reads this, groups.index
    {
      Named(state, peers, GroupTable.PeersOf(groups.index.Rest()))
    }

    /** RemainingNow, wrapped like Valid. */
    ghost function Remaining(w: nat := 3): seq<nat>
      reads this, groups.index
    {
      if w == 0 then RemainingNow() else Remaining(w - 1)
    }

    lemma {:induction false} RemainingIs(w: nat := 3)
      ensures Remaining(w) == RemainingNow()
    {
      if w > 0 { RemainingIs(w - 1); }
    }

    constructor (maxPeerMacs: nat, maxPeerGroups: nat, membershipInterval: int, lastMemberQueryTime: int)
      requires maxPeerMacs > 0 && maxPeerGroups > 0
      ensures Valid() && Remaining() == [] && state == DecideNone && peers == [] && fresh(Objects())
    {
      var m := new MacTable.MacIndex(maxPeerMacs);
      var g := new GroupTable.Groups(maxPeerGroups, membershipInterval, lastMemberQueryTime);
      macs := m;
      groups := g;
      peers := [];
      state := DecideNone;
      new;
      ValidClose();
      RemainingIs();
    }

    /** A decision for all peers. */
    method StartFlood()
      requires Valid()
      modifies `state
      ensures Valid() && Remaining() == Users(peers)
    {
      ValidOpen();
      state := DecideFlood(0);
      assert peers[0..] == peers;
      RemainingIs();
      ValidClose();
    }

    /** A decision for the peers with an entry of this signature, if there are any. */
    method StartMulticast(s: nat)
      requires Valid() && state.DecideNone?
      modifies `state, groups.index`it
      ensures Valid() && Remaining() == UsersOf(groups.Destinations(s))
    {
      ValidOpen();
      groups.SortingKeysOf();
      if s in groups.index.tree {
        groups.Iterate(s);
        state := DecideMulticast;
      }
      RemainingIs();
      ValidClose();
    }

    /** A decision for the owner of the address, if there is one. */
    method StartUnicast(dest: bytes) returns (found: bool)
      requires Valid() && state.DecideNone?
      modifies `state
      ensures Valid() && (found ==> Owned(dest, Remaining())) && (!found ==> state.DecideNone?)
      ensures !found ==> !exists i :: 0 <= i < |peers| && i < |macs.Owners()| && dest in macs.Owners()[i]
    {
      ValidOpen();
      var entry := macs.Lookup(dest);
      found := entry != null;
      if found {
        state := DecideUnicast(entry);
        RemainingIs();
        ghost var i :| 0 <= i < |macs.shelves| && dest in macs.Owners()[i] && macs.shelves[i].peer == entry;
        assert Remaining() == [peers[i].user];
      }
      ValidClose();
    }

    /** The decision itself. */
    method Decide(dest: bytes, igmp: bool)
      requires Valid() && |dest| == 6
      modifies `state, groups.index`it
      ensures Valid() && Decides(dest, igmp, Remaining())
    {
      Forget();
      if igmp || dest == BROADCAST {
        StartFlood();
        return;
      }
      if dest[..3] == MULTICAST_HEADER {
        StartMulticast(SigOfMac(dest));
        return;
      }
      var found := StartUnicast(dest);
      if !found {
        StartFlood();
      }
    }

    method Forget()
      requires Valid()
      modifies `state
      ensures Valid() && state == DecideNone
    {
      ValidOpen();
      state := DecideNone;
      ValidClose();
    }

    /** What a query for a group does to the timers. */
    twostate predicate Queried(query: Option<nat>, now: int)
      reads groups, groups.index, groups.index.entries
    {
      && groups.index.entries == old(groups.index.entries) && groups.index.groups == old(groups.index.groups)
      && forall e <- groups.index.entries ::
        var limit := now + groups.lastMemberQueryTime;
        e.endTime ==
          if query.Some? && query.value != 0 && e in groups.index.groups && groups.index.groups[e] == query.value
            && old(e.endTime) > limit
          then limit else old(e.endTime)
    }

    /** FrameDecider_AnalyzeAndDecide, once the headers are parsed and with no multicast decision pending */
    method AnalyzeAndDecide(dest: bytes, igmp: bool, query: Option<nat>, now: int)
      requires Valid() && |dest| == 6 && !state.DecideMulticast?
      modifies `state, groups.index`it, groups.index.entries`endTime
      ensures Valid() && Decides(dest, igmp, Remaining()) && Queried(query, now)
    {
      if query.Some? && query.value != 0 {
        LowerTimers(query.value, now);
      }
      Decide(dest, igmp);
    }

    method LowerTimers(group: nat, now: int)
      requires Valid()
      modifies groups.index.entries`endTime
      ensures Valid()
      ensures forall e <- groups.index.entries ::
        var limit := now + groups.lastMemberQueryTime;
        e.endTime ==
          if e in groups.index.groups && groups.index.groups[e] == group && old(e.endTime) > limit
          then limit else old(e.endTime)
    {
      ValidOpen();
      groups.LowerGroupTimers(group, now);
      ValidClose();
    }

    /** The next entry of the list that a multicast decision goes through. */
    method NextEntry() returns (e: Multicast.GroupEntry)
      requires Valid() && state.DecideMulticast? && groups.index.it != null
      modifies groups.index`it
      ensures Valid() && old(Remaining()) == [e.peer.user] + Remaining()
    {
      ValidOpen();
      RemainingIs();
      assert allocated(Objects());
      e := groups.Advance();
      RemainingIs();
      ValidClose();
    }

    method NextFlood() returns (user: nat)
      requires Valid() && state.DecideFlood? && state.current < |peers|
      modifies `state
      ensures Valid() && old(Remaining()) == [user] + Remaining()
    {
      ValidOpen();
      RemainingIs();
      var k := state.current;
      user := peers[k].user;
      state := DecideFlood(k + 1);
      assert peers[k..] == [peers[k]] + peers[k + 1..];
      RemainingIs();
      ValidClose();
    }

    /** FrameDecider_NextDestination */
    method NextDestination() returns (user: Option<nat>)
      requires Valid()
      modifies `state, groups.index`it
      ensures Valid()
      ensures if old(Remaining()) == [] then user == None && state == DecideNone
        else user == Some(old(Remaining())[0]) && Remaining() == old(Remaining())[1..]
    {
      RemainingIs();
      ValidOpen();
      match state
      case DecideNone =>
        user := None;
      case DecideUnicast(p) =>
        Forget();
        RemainingIs();
        user := Some(p.user);
      case DecideFlood(k) =>
        if k == |peers| {
          Forget();
          user := None;
        } else {
          var next := NextFlood();
          user := Some(next);
        }
      case DecideMulticast =>
        if groups.index.it == null {
          Forget();
          user := None;
        } else {
          var entry := NextEntry();
          user := Some(entry.peer.user);
        }
    }

    /** Draining the destinations, as the device handler does. */
    method Drain() returns (users: seq<nat>)
      requires Valid()
      modifies `state, groups.index`it
      ensures Valid() && state == DecideNone && users == old(Remaining())
    {
      users := [];
      var more := true;
      while more
        invariant Valid() && (more ==> users + Remaining() == old(Remaining()))
        invariant !more ==> users == old(Remaining()) && state == DecideNone
        decreases more, |Remaining()|
      {
        var user := NextDestination();
        if user.Some? {
          users := users + [user.value];
        } else {
          more := false;
        }
      }
    }

    /** A frame from the device: decided and drained. */
    method Destinations(dest: bytes, igmp: bool, query: Option<nat>, now: int) returns (users: seq<nat>)
      requires Valid() && |dest| == 6 && !state.DecideMulticast?
      modifies `state, groups.index`it, groups.index.entries`endTime
      ensures Valid() && state == DecideNone && Decides(dest, igmp, users) && Queried(query, now)
    {
      AnalyzeAndDecide(dest, igmp, query, now);
      users := Drain();
    }

    /** A multicast frame goes to exactly the peers that are in a group which shares the low 23 bits of its address. */
    lemma {:induction false} MulticastExact(dest: bytes, to: seq<nat>, u: nat)
      requires Valid() && |dest| == 6 && dest[..3] == MULTICAST_HEADER && Decides(dest, false, to)
      ensures |groups.Lists()| == |peers|
      ensures u in to <==>
        exists i :: 0 <= i < |peers| && peers[i].user == u && exists g <- groups.Lists()[i] :: Multicast.Sig(g) == SigOfMac(dest)
    {
      var s := SigOfMac(dest);
      var nodes := groups.Destinations(s);
      ValidOpen();
      assert dest[0] == dest[..3][0] && dest != BROADCAST;
      if u in to {
        var k :| 0 <= k < |to| && to[k] == u;
        groups.DestinationsExact(s, nodes[k]);
        var i :| 0 <= i < |peers| && groups.shelves[i].peer == nodes[k]
          && exists g <- groups.Lists()[i] :: Multicast.Sig(g) == s;
        assert peers[i].user == u;
      }
      forall i | 0 <= i < |peers| && peers[i].user == u && exists g <- groups.Lists()[i] :: Multicast.Sig(g) == s
        ensures u in to
      {
        groups.DestinationsExact(s, peers[i].groups);
        var k :| 0 <= k < |nodes| && nodes[k] == peers[i].groups;
        assert to[k] == u;
      }
    }

    /** A frame to an address that a peer owns goes to that peer alone. */
    lemma {:induction false} UnicastExact(dest: bytes, to: seq<nat>, i: nat)
      requires Valid() && |dest| == 6 && dest != BROADCAST && dest[..3] != MULTICAST_HEADER && Decides(dest, false, to)
      requires i < |macs.Owners()| && dest in macs.Owners()[i]
      ensures i < |peers| && to == [peers[i].user]
    {
      ValidOpen();
      macs.OwnersDistinct();
      assert Owned(dest, to);
      var k :| 0 <= k < |peers| && k < |macs.Owners()| && dest in macs.Owners()[k] && to == [peers[k].user];
      var l :| 0 <= l < |macs.Owners()[k]| && macs.Owners()[k][l] == dest;
      var n :| 0 <= n < |macs.Owners()[i]| && macs.Owners()[i][n] == dest;
    }

    /**
     Where a frame goes: IGMP and broadcast to all peers; multicast to the peers with a group that has the same low 23
     bits; anything else to the peer that owns the address, and if nobody does, to all.
     */
    lemma {:induction false} DecidesExact(dest: bytes, igmp: bool, to: seq<nat>, u: nat)
      requires Valid() && |dest| == 6 && Decides(dest, igmp, to)
      ensures |groups.Lists()| == |macs.Owners()| == |peers|
      ensures var all := Users(peers);
        if igmp || (forall i :: 0 <= i < 6 ==> dest[i] == 255) then to == all
        else if dest[0] == 1 && dest[1] == 0 && dest[2] == 94 then
          u in to <==> exists i :: 0 <= i < |peers| && peers[i].user == u && exists g <- groups.Lists()[i] :: SameLowBits(g, dest)
        else if exists i :: 0 <= i < |peers| && dest in macs.Owners()[i] then
          forall i :: 0 <= i < |peers| && dest in macs.Owners()[i] ==> to == [peers[i].user]
        else to == all
    {
      TablesFit();
      assert dest[..3] == MULTICAST_HEADER <==> dest[0] == 1 && dest[1] == 0 && dest[2] == 94 by {
        assert dest[..3] == [dest[0], dest[1], dest[2]];
      }
      assert dest == BROADCAST <==> forall i :: 0 <= i < 6 ==> dest[i] == 255;
      if !igmp && dest != BROADCAST {
        if dest[..3] == MULTICAST_HEADER {
          forall g ensures Multicast.Sig(g) == SigOfMac(dest) <==> SameLowBits(g, dest) {
            SigExact(g, dest);
          }
          MulticastExact(dest, to, u);
        } else {
          forall i | 0 <= i < |peers| && dest in macs.Owners()[i] ensures to == [peers[i].user] {
            UnicastExact(dest, to, i);
          }
        }
      }
    }
  }
}
