/** The group lists of the peers of a frame decider, on top of the multicast index. */
module GroupTable {
  import opened Common
  import opened Multicast

  // ---------- the simple model: for each peer its groups, the one joined longest ago first ----------

  type Table = seq<seq<nat>>

  /** A join: the group goes to the end of the peer's list, whose oldest makes room if need be. */
  function Join(t: Table, i: nat, group: nat, max: nat): Table
    requires i < |t|
  {
    t[i := if group in t[i] then Minus(t[i], group) + [group] else Appended(t[i], group, max)]
  }

  /** An expiry. */
  function Leave(t: Table, i: nat, group: nat): Table
    requires i < |t|
  {
    t[i := Minus(t[i], group)]
  }

  /**
   Who is in which group after a join and after an expiry: the peer has joined, or left, this group, and otherwise
   only a join into a full list drops a group, the one joined longest ago. The other groups keep their order.
   */
  lemma {:induction false} JoinExact(t: Table, i: nat, g: nat, max: nat, j: nat, x: nat)
    requires i < |t| && j < |t| && NoDuplicates(t[i]) && max > 0
    ensures x in Join(t, i, g, max)[j] <==>
      (j == i && x == g) || (x in t[j] && !(j == i && g !in t[i] && |t[i]| == max && x == t[i][0]))
    ensures x in Leave(t, i, g)[j] <==> x in t[j] && !(j == i && x == g)
    ensures g !in t[i] ==>
      Join(t, i, g, max)[i] == (if |t[i]| == max then t[i][1..] else t[i]) + [g] && Leave(t, i, g)[i] == t[i]
    ensures forall p :: 0 <= p < |t[i]| && t[i][p] == g ==>
      Join(t, i, g, max)[i] == t[i][..p] + t[i][p + 1..] + [g] && Leave(t, i, g)[i] == t[i][..p] + t[i][p + 1..]
  {
    if g !in t[i] {
      MinusNone(t[i], g);
    }
    forall p | 0 <= p < |t[i]| && t[i][p] == g ensures Minus(t[i], g) == t[i][..p] + t[i][p + 1..] {
      MinusAt(t[i], p);
    }
    MinusKeeps(t[i], g);
    if g !in t[i] && |t[i]| == max {
      RestMember(t[i], x);
    }
  }

  // ---------- the entries ----------

  /** A peer's lists and tree as values, with the groups of the used entries. */
  datatype Shelf = Shelf(peer: GroupPeer, free: seq<GroupEntry>, used: seq<GroupEntry>, list: seq<nat>,
                         index: map<nat, GroupEntry>)

  /** The heap holds what the shelf says. */
  ghost predicate ShelfIs(s: Shelf, entries: set<GroupEntry>)
    reads s.peer, entries`group
  {
    && s.peer.free == s.free && s.peer.used == s.used && s.peer.groups == s.index && |s.used| == |s.list|
    && (forall j :: 0 <= j < |s.used| ==> s.used[j] in entries && s.used[j].group == s.list[j])
    && (forall j :: 0 <= j < |s.free| ==> s.free[j] in entries)
  }

  /** Every entry of the peer is in one of its lists, once; `held` entries are just being moved. */
  ghost predicate ListsOk(peer: GroupPeer, free: seq<GroupEntry>, used: seq<GroupEntry>, max: nat, held: set<GroupEntry>) {
    && NoDuplicates(free) && NoDuplicates(used) && |free| + |used| + |held| == max
    && (forall e :: e in free ==> e.peer == peer && e !in used && e !in held)
    && (forall e :: e in used ==> e.peer == peer && e !in held)
  }

  /** The peer's tree finds its used entries by their groups, which differ. */
  ghost predicate IndexOk(index: map<nat, GroupEntry>, used: seq<GroupEntry>, list: seq<nat>) {
    && |used| == |list| && NoDuplicates(list)
    && (forall j :: 0 <= j < |list| ==> list[j] in index && index[list[j]] == used[j])
    && (forall g <- index :: g in list)
  }

  ghost predicate ShelfOk(s: Shelf, max: nat, held: set<GroupEntry>) {
    ListsOk(s.peer, s.free, s.used, max, held) && IndexOk(s.index, s.used, s.list)
  }

  ghost predicate Listed(shelves: seq<Shelf>, e: GroupEntry) {
    exists i :: 0 <= i < |shelves| && e in shelves[i].used
  }

  /** The entries in use, with their groups, are those of the used lists. */
  ghost predicate Tied(groups: map<GroupEntry, nat>, shelves: seq<Shelf>) {
    && (forall i :: 0 <= i < |shelves| ==> |shelves[i].used| == |shelves[i].list|)
    && (forall i, j :: 0 <= i < |shelves| && 0 <= j < |shelves[i].used| ==>
      shelves[i].used[j] in groups && groups[shelves[i].used[j]] == shelves[i].list[j])
    && (forall e <- groups :: Listed(shelves, e))
  }

  /** All of the lists; entries in `held` belong to peer h. */
  ghost predicate Tables(groups: map<GroupEntry, nat>, shelves: seq<Shelf>, max: nat, h: int, held: set<GroupEntry>) {
    && Tied(groups, shelves)
    && (forall i :: 0 <= i < |shelves| ==> ShelfOk(shelves[i], max, if i == h then held else {}))
    && (forall i, k :: 0 <= i < k < |shelves| ==> shelves[i].peer != shelves[k].peer)
  }

  /** Tables, wrapped so that the methods carry it along by name. */
  ghost predicate Files(groups: map<GroupEntry, nat>, shelves: seq<Shelf>, max: nat, h: int, held: set<GroupEntry>,
                        w: nat := 3) {
    if w == 0 then Tables(groups, shelves, max, h, held) else Files(groups, shelves, max, h, held, w - 1)
  }

  lemma {:induction false} FilesOpen(groups: map<GroupEntry, nat>, shelves: seq<Shelf>, max: nat, h: int,
                                     held: set<GroupEntry>, w: nat := 3)
    requires Files(groups, shelves, max, h, held, w)
    ensures Tables(groups, shelves, max, h, held)
  {
    if w > 0 { FilesOpen(groups, shelves, max, h, held, w - 1); }
  }

  lemma {:induction false} FilesClose(groups: map<GroupEntry, nat>, shelves: seq<Shelf>, max: nat, h: int,
                                      held: set<GroupEntry>, w: nat := 3)
    requires Tables(groups, shelves, max, h, held)
    ensures Files(groups, shelves, max, h, held, w)
  {
    if w > 0 { FilesClose(groups, shelves, max, h, held, w - 1); }
  }

  // ---------- one step of a peer's lists ----------

  function Touched(s: Shelf, j: nat): Shelf
    requires j < |s.used| == |s.list|
  {
    s.(used := ToEnd(s.used, j), list := ToEnd(s.list, j))
  }

  function Dropped(s: Shelf, j: nat): Shelf
    requires j < |s.used| == |s.list|
  {
    s.(used := Without(s.used, j), list := Without(s.list, j), index := s.index - {s.list[j]})
  }

  function Released(s: Shelf, j: nat): Shelf
    requires j < |s.used| == |s.list|
  {
    Dropped(s, j).(free := s.free + [s.used[j]])
  }

  function Taken(s: Shelf): Shelf
    requires s.free != []
  {
    s.(free := s.free[1..])
  }

  function Filed(s: Shelf, e: GroupEntry, group: nat): Shelf {
    s.(used := s.used + [e], list := s.list + [group], index := s.index[group := e])
  }

  lemma {:induction false} TouchedLists(s: Shelf, j: nat, max: nat)
    requires ListsOk(s.peer, s.free, s.used, max, {}) && j < |s.used|
    ensures ListsOk(s.peer, s.free, ToEnd(s.used, j), max, {})
  {
    ToEndKeeps(s.used, j);
  }

  lemma {:induction false} TouchedIndex(s: Shelf, j: nat)
    requires IndexOk(s.index, s.used, s.list) && j < |s.used|
    ensures IndexOk(s.index, ToEnd(s.used, j), ToEnd(s.list, j))
  {
    ToEndKeeps(s.list, j);
  }

  lemma {:induction false} TouchedShelf(s: Shelf, j: nat, max: nat)
    requires ShelfOk(s, max, {}) && j < |s.used|
    ensures ShelfOk(Touched(s, j), max, {})
  {
    TouchedLists(s, j, max);
    TouchedIndex(s, j);
  }

  lemma {:induction false} DroppedLists(s: Shelf, j: nat, max: nat)
    requires ListsOk(s.peer, s.free, s.used, max, {}) && j < |s.used|
    ensures ListsOk(s.peer, s.free, Without(s.used, j), max, {s.used[j]})
    ensures ListsOk(s.peer, s.free + [s.used[j]], Without(s.used, j), max, {})
    ensures s.used[j].peer == s.peer
  {
    WithoutKeeps(s.used, j);
    assert s.used[j] in s.used;
  }

  lemma {:induction false} DroppedIndex(s: Shelf, j: nat)
    requires IndexOk(s.index, s.used, s.list) && j < |s.used|
    ensures IndexOk(s.index - {s.list[j]}, Without(s.used, j), Without(s.list, j))
  {
    WithoutKeeps(s.list, j);
    var index', list' := s.index - {s.list[j]}, Without(s.list, j);
    forall k | 0 <= k < |list'| ensures list'[k] in index' && index'[list'[k]] == Without(s.used, j)[k] {
      assert list'[k] == s.list[if k < j then k else k + 1];
      assert list'[k] in list';
    }
  }

  lemma {:induction false} DroppedShelf(s: Shelf, j: nat, max: nat)
    requires ShelfOk(s, max, {}) && j < |s.used|
    ensures ShelfOk(Dropped(s, j), max, {s.used[j]}) && ShelfOk(Released(s, j), max, {})
    ensures s.used[j].peer == s.peer
  {
    DroppedLists(s, j, max);
    DroppedIndex(s, j);
  }

  lemma {:induction false} TakenShelf(s: Shelf, max: nat)
    requires ShelfOk(s, max, {}) && s.free != []
    ensures ShelfOk(Taken(s), max, {s.free[0]}) && s.free[0].peer == s.peer && s.free[0] !in s.used
  {
    assert s.free[0] in s.free;
    assert Without(s.free, 0) == s.free[1..];
    WithoutKeeps(s.free, 0);
  }

  lemma {:induction false} FiledShelf(s: Shelf, e: GroupEntry, group: nat, max: nat)
    requires ShelfOk(s, max, {e}) && e.peer == s.peer && group !in s.index
    ensures ShelfOk(Filed(s, e, group), max, {})
  {
    var s' := Filed(s, e, group);
    assert ListsOk(s'.peer, s'.free, s'.used, max, {});
    forall g <- s'.index ensures g in s'.list {
      if g == group {
        assert s'.list[|s.list|] == g;
      } else {
        assert g in s.list;
      }
    }
  }

  /** An entry of a peer is used by no other. */
  lemma {:induction false} TiedApart(shelves: seq<Shelf>, max: nat, h: int, held: set<GroupEntry>, i: nat, e: GroupEntry)
    requires i < |shelves| && e.peer == shelves[i].peer
    requires forall k :: 0 <= k < |shelves| ==> ShelfOk(shelves[k], max, if k == h then held else {})
    requires forall a, b :: 0 <= a < b < |shelves| ==> shelves[a].peer != shelves[b].peer
    ensures forall k :: 0 <= k < |shelves| && k != i ==> e !in shelves[k].used
  {
    forall k | 0 <= k < |shelves| && k != i ensures e !in shelves[k].used {
      assert ShelfOk(shelves[k], max, if k == h then held else {});
    }
  }

  lemma {:induction false} UsedListed(groups: map<GroupEntry, nat>, shelves: seq<Shelf>, e: GroupEntry)
    requires Tied(groups, shelves)
    ensures e in groups ==> exists k :: 0 <= k < |shelves| && e in shelves[k].used
  {
    assert e in groups ==> Listed(shelves, e);
  }

  lemma {:induction false} TiedTouched(groups: map<GroupEntry, nat>, shelves: seq<Shelf>, i: nat, j: nat)
    requires Tied(groups, shelves) && i < |shelves| && j < |shelves[i].used|
    ensures Tied(groups, shelves[i := Touched(shelves[i], j)])
  {
    var s, shelves' := shelves[i], shelves[i := Touched(shelves[i], j)];
    forall e <- groups ensures Listed(shelves', e) {
      assert Listed(shelves, e);
      var k :| 0 <= k < |shelves| && e in shelves[k].used;
      ToEndKeeps(s.used, j);
      assert e in shelves'[k].used;
    }
  }

  lemma {:induction false} TiedDropped(groups: map<GroupEntry, nat>, shelves: seq<Shelf>, i: nat, j: nat, s': Shelf)
    requires Tied(groups, shelves) && i < |shelves| && j < |shelves[i].used| && NoDuplicates(shelves[i].used)
    requires forall k :: 0 <= k < |shelves| && k != i ==> shelves[i].used[j] !in shelves[k].used
    requires s'.used == Without(shelves[i].used, j) && s'.list == Without(shelves[i].list, j)
    ensures Tied(groups - {shelves[i].used[j]}, shelves[i := s'])
  {
    var s, shelves', e0 := shelves[i], shelves[i := s'], shelves[i].used[j];
    forall k, l | 0 <= k < |shelves'| && 0 <= l < |shelves'[k].used|
      ensures shelves'[k].used[l] in groups - {e0} && groups[shelves'[k].used[l]] == shelves'[k].list[l]
    {
      if k == i {
        assert s'.used[l] == s.used[if l < j then l else l + 1];
      } else {
        assert shelves[k].used[l] in shelves[k].used;
      }
    }
    forall e <- groups - {e0} ensures Listed(shelves', e) {
      assert Listed(shelves, e);
      var k :| 0 <= k < |shelves| && e in shelves[k].used;
      WithoutKeeps(s.used, j);
      assert e in shelves'[k].used;
    }
  }

  lemma {:induction false} TiedSame(groups: map<GroupEntry, nat>, shelves: seq<Shelf>, i: nat, s': Shelf)
    requires Tied(groups, shelves) && i < |shelves| && s'.used == shelves[i].used && s'.list == shelves[i].list
    ensures Tied(groups, shelves[i := s'])
  {
    forall e <- groups ensures Listed(shelves[i := s'], e) {
      assert Listed(shelves, e);
      var k :| 0 <= k < |shelves| && e in shelves[k].used;
      assert e in shelves[i := s'][k].used;
    }
  }

  lemma {:induction false} TiedFiled(groups: map<GroupEntry, nat>, shelves: seq<Shelf>, i: nat, e: GroupEntry, group: nat)
    requires Tied(groups, shelves) && i < |shelves| && e !in groups
    ensures Tied(groups[e := group], shelves[i := Filed(shelves[i], e, group)])
  {
    var groups', shelves' := groups[e := group], shelves[i := Filed(shelves[i], e, group)];
    forall x <- groups' ensures Listed(shelves', x) {
      if x == e {
        assert shelves'[i].used[|shelves[i].used|] == e;
        assert e in shelves'[i].used;
      } else {
        assert Listed(shelves, x);
        var k :| 0 <= k < |shelves| && x in shelves[k].used;
        assert x in shelves'[k].used;
      }
    }
  }

  /** The tables with shelf i replaced. */
  lemma {:induction false} FilesWith(groups: map<GroupEntry, nat>, groups': map<GroupEntry, nat>, shelves: seq<Shelf>,
                                     max: nat, h: int, held: set<GroupEntry>, i: nat, s': Shelf, h': int,
                                     held': set<GroupEntry>)
    requires Tables(groups, shelves, max, h, held) && i < |shelves| && s'.peer == shelves[i].peer
    requires (h == i || h == -1) && (h' == i || h' == -1)
    requires Tied(groups', shelves[i := s']) && ShelfOk(s', max, if h' == i then held' else {})
    ensures Files(groups', shelves[i := s'], max, h', held')
  {
    var shelves' := shelves[i := s'];
    forall k | 0 <= k < |shelves'| ensures ShelfOk(shelves'[k], max, if k == h' then held' else {}) {
      assert k != i ==> ShelfOk(shelves[k], max, if k == h then held else {});
    }
    FilesClose(groups', shelves', max, h', held');
  }

  lemma {:induction false} FilesTouched(groups: map<GroupEntry, nat>, shelves: seq<Shelf>, max: nat, i: nat, j: nat)
    requires Files(groups, shelves, max, -1, {}) && i < |shelves| && j < |shelves[i].used| == |shelves[i].list|
    ensures Files(groups, shelves[i := Touched(shelves[i], j)], max, -1, {})
  {
    FilesOpen(groups, shelves, max, -1, {});
    TouchedShelf(shelves[i], j, max);
    TiedTouched(groups, shelves, i, j);
    FilesWith(groups, groups, shelves, max, -1, {}, i, Touched(shelves[i], j), -1, {});
  }

  lemma {:induction false} FilesReleased(groups: map<GroupEntry, nat>, shelves: seq<Shelf>, max: nat, i: nat, j: nat)
    requires Files(groups, shelves, max, -1, {}) && i < |shelves| && j < |shelves[i].used| == |shelves[i].list|
    ensures Files(groups - {shelves[i].used[j]}, shelves[i := Released(shelves[i], j)], max, -1, {})
  {
    FilesOpen(groups, shelves, max, -1, {});
    DroppedShelf(shelves[i], j, max);
    TiedApart(shelves, max, -1, {}, i, shelves[i].used[j]);
    TiedDropped(groups, shelves, i, j, Released(shelves[i], j));
    FilesWith(groups, groups - {shelves[i].used[j]}, shelves, max, -1, {}, i, Released(shelves[i], j), -1, {});
  }

  /** The oldest used entry is taken out, to be used again. */
  lemma {:induction false} FilesEvicted(groups: map<GroupEntry, nat>, shelves: seq<Shelf>, max: nat, i: nat)
    requires Files(groups, shelves, max, -1, {}) && i < |shelves| && 0 < |shelves[i].used| == |shelves[i].list|
    ensures Files(groups - {shelves[i].used[0]}, shelves[i := Dropped(shelves[i], 0)], max, i, {shelves[i].used[0]})
  {
    FilesOpen(groups, shelves, max, -1, {});
    DroppedShelf(shelves[i], 0, max);
    TiedApart(shelves, max, -1, {}, i, shelves[i].used[0]);
    TiedDropped(groups, shelves, i, 0, Dropped(shelves[i], 0));
    FilesWith(groups, groups - {shelves[i].used[0]}, shelves, max, -1, {}, i, Dropped(shelves[i], 0), i, {shelves[i].used[0]});
  }

  lemma {:induction false} FilesTaken(groups: map<GroupEntry, nat>, shelves: seq<Shelf>, max: nat, i: nat)
    requires Files(groups, shelves, max, -1, {}) && i < |shelves| && shelves[i].free != []
    ensures Files(groups, shelves[i := Taken(shelves[i])], max, i, {shelves[i].free[0]})
    ensures shelves[i].free[0].peer == shelves[i].peer && shelves[i].free[0] !in groups
  {
    FilesOpen(groups, shelves, max, -1, {});
    var e := shelves[i].free[0];
    TakenShelf(shelves[i], max);
    TiedSame(groups, shelves, i, Taken(shelves[i]));
    TiedApart(shelves, max, -1, {}, i, e);
    UsedListed(groups, shelves, e);
    FilesWith(groups, groups, shelves, max, -1, {}, i, Taken(shelves[i]), i, {e});
  }

  lemma {:induction false} FilesFiled(groups: map<GroupEntry, nat>, shelves: seq<Shelf>, max: nat, i: nat, e: GroupEntry,
                                      group: nat)
    requires Files(groups, shelves, max, i, {e}) && i < |shelves| && e.peer == shelves[i].peer
    requires e !in groups && group !in shelves[i].index
    ensures Files(groups[e := group], shelves[i := Filed(shelves[i], e, group)], max, -1, {})
  {
    FilesOpen(groups, shelves, max, i, {e});
    FiledShelf(shelves[i], e, group, max);
    TiedFiled(groups, shelves, i, e, group);
    FilesWith(groups, groups[e := group], shelves, max, i, {e}, i, Filed(shelves[i], e, group), -1, {});
  }

  /** What the tables say of one shelf, and of the others against it. */
  lemma {:induction false} FilesAt(groups: map<GroupEntry, nat>, shelves: seq<Shelf>, max: nat, h: int,
                                   held: set<GroupEntry>, i: nat)
    requires Files(groups, shelves, max, h, held) && i < |shelves|
    ensures |shelves[i].used| == |shelves[i].list| && NoDuplicates(shelves[i].used) && NoDuplicates(shelves[i].list)
    ensures forall k :: 0 <= k < |shelves| && k != i ==> shelves[k].peer != shelves[i].peer
    ensures forall j :: 0 <= j < |shelves[i].used| ==>
      shelves[i].used[j] in groups && groups[shelves[i].used[j]] == shelves[i].list[j]
      && shelves[i].used[j].peer == shelves[i].peer
    ensures forall g <- shelves[i].index :: g in shelves[i].list
    ensures forall j :: 0 <= j < |shelves[i].list| ==>
      shelves[i].list[j] in shelves[i].index && shelves[i].index[shelves[i].list[j]] == shelves[i].used[j]
    ensures i != h ==> (shelves[i].free == [] <==> |shelves[i].used| == max)
  {
    FilesOpen(groups, shelves, max, h, held);
    assert ShelfOk(shelves[i], max, if i == h then held else {});
    forall j | 0 <= j < |shelves[i].used| ensures shelves[i].used[j].peer == shelves[i].peer {
      assert shelves[i].used[j] in shelves[i].used;
    }
  }

  /** The peer an entry in use belongs to, and its place there. */
  lemma {:induction false} FilesFind(groups: map<GroupEntry, nat>, shelves: seq<Shelf>, max: nat, e: GroupEntry)
    returns (i: nat, j: nat)
    requires Files(groups, shelves, max, -1, {}) && e in groups
    ensures i < |shelves| && j < |shelves[i].used| == |shelves[i].list| && shelves[i].used[j] == e
    ensures shelves[i].peer == e.peer && shelves[i].list[j] == groups[e]
  {
    FilesOpen(groups, shelves, max, -1, {});
    assert Listed(shelves, e);
    i :| i < |shelves| && e in shelves[i].used;
    j :| j < |shelves[i].used| && shelves[i].used[j] == e;
    assert ShelfOk(shelves[i], max, {});
  }

  /** A peer has one entry for a group. */
  lemma {:induction false} OneEntry(groups: map<GroupEntry, nat>, shelves: seq<Shelf>, max: nat, x: GroupEntry, y: GroupEntry)
    requires Files(groups, shelves, max, -1, {}) && x in groups && y in groups
    ensures x.peer == y.peer && groups[x] == groups[y] ==> x == y
  {
    var i, j := FilesFind(groups, shelves, max, x);
    var k, l := FilesFind(groups, shelves, max, y);
    FilesAt(groups, shelves, max, -1, {}, i);
  }

  // ---------- the lists on the heap ----------

  /** The heap holds what the shelves say; wrapped like Files. */
  ghost predicate Shelved(shelves: seq<Shelf>, peers: set<GroupPeer>, entries: set<GroupEntry>, w: nat := 3)
    reads peers, entries`group
  {
    if w == 0 then forall i :: 0 <= i < |shelves| ==> shelves[i].peer in peers && ShelfIs(shelves[i], entries)
    else Shelved(shelves, peers, entries, w - 1)
  }

  lemma {:induction false} ShelvedOpen(shelves: seq<Shelf>, peers: set<GroupPeer>, entries: set<GroupEntry>, w: nat := 3)
    requires Shelved(shelves, peers, entries, w)
    ensures forall i :: 0 <= i < |shelves| ==> shelves[i].peer in peers && ShelfIs(shelves[i], entries)
  {
    if w > 0 { ShelvedOpen(shelves, peers, entries, w - 1); }
  }

  lemma {:induction false} ShelvedClose(shelves: seq<Shelf>, peers: set<GroupPeer>, entries: set<GroupEntry>, w: nat := 3)
    requires forall i :: 0 <= i < |shelves| ==> shelves[i].peer in peers && ShelfIs(shelves[i], entries)
    ensures Shelved(shelves, peers, entries, w)
  {
    if w > 0 { ShelvedClose(shelves, peers, entries, w - 1); }
  }

  lemma {:induction false} ShelfAt(shelves: seq<Shelf>, peers: set<GroupPeer>, entries: set<GroupEntry>, i: nat)
    requires Shelved(shelves, peers, entries) && i < |shelves|
    ensures shelves[i].peer in peers && ShelfIs(shelves[i], entries)
  {
    ShelvedOpen(shelves, peers, entries);
  }

  /** The peer o is that of shelf i and of no other. */
  ghost predicate Only(shelves: seq<Shelf>, i: nat, o: GroupPeer) {
    && i < |shelves| && shelves[i].peer == o && |shelves[i].used| == |shelves[i].list|
    && forall k :: 0 <= k < |shelves| && k != i ==> shelves[k].peer != o
  }

  /** Removal from the used list and appending to it. */
  method MoveUsed(o: GroupPeer, e: GroupEntry, ghost shelves: seq<Shelf>, ghost peers: set<GroupPeer>,
                  ghost entries: set<GroupEntry>, ghost i: nat, ghost j: nat)
    requires Shelved(shelves, peers, entries) && Only(shelves, i, o)
    requires j < |shelves[i].used| && shelves[i].used[j] == e && NoDuplicates(shelves[i].used)
    modifies o
    ensures Shelved(shelves[i := Touched(shelves[i], j)], peers, entries)
  {
    ghost var s' := Touched(shelves[i], j);
    ShelvedOpen(shelves, peers, entries);
    MovedToEnd(o.used, j);
    o.used := Minus(o.used, e);
    o.used := o.used + [e];
    assert ShelfIs(s', entries);
    ShelvedClose(shelves[i := s'], peers, entries);
  }

  /** Removal from the peer's tree and its used list. */
  method DropUsed(o: GroupPeer, e: GroupEntry, ghost shelves: seq<Shelf>, ghost peers: set<GroupPeer>,
                  ghost entries: set<GroupEntry>, ghost i: nat, ghost j: nat)
    requires Shelved(shelves, peers, entries) && Only(shelves, i, o)
    requires j < |shelves[i].used| && shelves[i].used[j] == e && NoDuplicates(shelves[i].used)
    modifies o
    ensures Shelved(shelves[i := Dropped(shelves[i], j)], peers, entries)
  {
    ghost var s' := Dropped(shelves[i], j);
    ShelvedOpen(shelves, peers, entries);
    MinusAt(o.used, j);
    o.groups := o.groups - {e.group};
    o.used := Minus(o.used, e);
    assert ShelfIs(s', entries);
    ShelvedClose(shelves[i := s'], peers, entries);
  }

  /** Removal from the peer's tree and its used list, and appending to the free list. */
  method ReleaseUsed(o: GroupPeer, e: GroupEntry, ghost shelves: seq<Shelf>, ghost peers: set<GroupPeer>,
                     ghost entries: set<GroupEntry>, ghost i: nat, ghost j: nat)
    requires Shelved(shelves, peers, entries) && Only(shelves, i, o) && e in entries
    requires j < |shelves[i].used| && shelves[i].used[j] == e && NoDuplicates(shelves[i].used)
    modifies o
    ensures Shelved(shelves[i := Released(shelves[i], j)], peers, entries)
  {
    ghost var s' := Released(shelves[i], j);
    DropUsed(o, e, shelves, peers, entries, i, j);
    ghost var dropped := shelves[i := Dropped(shelves[i], j)];
    ShelvedOpen(dropped, peers, entries);
    assert ShelfIs(dropped[i], entries);
    o.free := o.free + [e];
    assert ShelfIs(s', entries);
    assert dropped[i := s'] == shelves[i := s'];
    ShelvedClose(dropped[i := s'], peers, entries);
  }

  /** The first free entry. */
  method TakeFree(o: GroupPeer, ghost shelves: seq<Shelf>, ghost peers: set<GroupPeer>,
                  ghost entries: set<GroupEntry>, ghost i: nat) returns (e: GroupEntry)
    requires Shelved(shelves, peers, entries) && Only(shelves, i, o) && shelves[i].free != []
    modifies o`free
    ensures e == shelves[i].free[0] && e in entries && Shelved(shelves[i := Taken(shelves[i])], peers, entries)
  {
    ghost var s' := Taken(shelves[i]);
    ShelvedOpen(shelves, peers, entries);
    e := o.free[0];
    o.free := Minus(o.free, e);
    assert ShelfIs(s', entries);
    ShelvedClose(shelves[i := s'], peers, entries);
  }

  /** The group goes into the entry, and the entry into the peer's used list and tree. */
  method PutUsed(o: GroupPeer, e: GroupEntry, group: nat, ghost shelves: seq<Shelf>, ghost peers: set<GroupPeer>,
                 ghost entries: set<GroupEntry>, ghost i: nat)
    requires Shelved(shelves, peers, entries) && Only(shelves, i, o) && e in entries
    requires forall k :: 0 <= k < |shelves| ==> e !in shelves[k].used
    modifies o, e`group
    ensures Shelved(shelves[i := Filed(shelves[i], e, group)], peers, entries)
  {
    ghost var s' := Filed(shelves[i], e, group);
    ShelvedOpen(shelves, peers, entries);
    o.used := o.used + [e];
    e.group := group;
    o.groups := o.groups[group := e];
    assert ShelfIs(s', entries);
    forall k | 0 <= k < |shelves| && k != i ensures ShelfIs(shelves[k], entries) {
      assert old(ShelfIs(shelves[k], entries));
      assert forall j :: 0 <= j < |shelves[k].used| ==> shelves[k].used[j] in shelves[k].used;
    }
    ShelvedClose(shelves[i := s'], peers, entries);
  }

  // ---------- the tables together ----------

  ghost function TableOf(shelves: seq<Shelf>): (t: Table)
    ensures |t| == |shelves| && forall i :: 0 <= i < |t| ==> t[i] == shelves[i].list
  {
    seq(|shelves|, i requires 0 <= i < |shelves| => shelves[i].list)
  }

  /** The timers run for exactly the entries in use, those in `held` aside. */
  ghost predicate Timed(entries: set<GroupEntry>, groups: map<GroupEntry, nat>, held: set<GroupEntry>)
    reads entries`timerRunning
  {
    forall e <- entries :: e !in held ==> (e.timerRunning <==> e in groups)
  }

  /** The memberships of o in these groups last until `end`, and all others as before. */
  ghost predicate Renewed(g0: map<GroupEntry, nat>, t0: map<GroupEntry, int>, g: map<GroupEntry, nat>,
                          t: map<GroupEntry, int>, o: GroupPeer, groups: seq<nat>, end: int) {
    && (forall x <- g :: x in t && (g[x] in groups && x.peer == o ==> t[x] == end))
    && (forall x <- g :: !(g[x] in groups && x.peer == o) ==> x in g0 && x in t0 && g[x] == g0[x] && t[x] == t0[x])
  }

  lemma {:induction false} RenewedOne(g0: map<GroupEntry, nat>, t0: map<GroupEntry, int>, g: map<GroupEntry, nat>,
                                      t: map<GroupEntry, int>, o: GroupPeer, group: nat, end: int, e: GroupEntry)
    requires e in g && g[e] == group && e.peer == o && (forall x <- g0 :: x in t0) && (forall x <- g :: x in t) && t[e] == end
    requires forall x <- g :: x.peer == o && g[x] == group ==> x == e
    requires forall x <- g :: x != e ==> x in g0 && g[x] == g0[x]
    requires forall x <- g :: x != e && x in t0 ==> t[x] == t0[x]
    ensures Renewed(g0, t0, g, t, o, [group], end)
  {
  }

  lemma {:induction false} RenewedNext(g0: map<GroupEntry, nat>, t0: map<GroupEntry, int>, g1: map<GroupEntry, nat>,
                                       t1: map<GroupEntry, int>, g: map<GroupEntry, nat>, t: map<GroupEntry, int>,
                                       o: GroupPeer, groups: seq<nat>, group: nat, end: int)
    requires Renewed(g0, t0, g1, t1, o, groups, end) && Renewed(g1, t1, g, t, o, [group], end)
    ensures Renewed(g0, t0, g, t, o, groups + [group], end)
  {
  }

  class Groups {
    const index: GroupIndex
    const maxPeerGroups: nat
    const membershipInterval: int
    const lastMemberQueryTime: int
    ghost var shelves: seq<Shelf>
    ghost var peers: set<GroupPeer>

    /** Lists and index, with the entries `held` of peer h just being moved. */
    ghost predicate Consistent(h: int, held: set<GroupEntry>)
      reads this, index, peers, index.entries
    {
      && maxPeerGroups > 0 && index.Index()
      && Files(index.groups, shelves, maxPeerGroups, h, held)
      && Shelved(shelves, peers, index.entries)
      && Timed(index.entries, index.groups, held)
    }

    ghost predicate Valid()
      reads this, index, peers, index.entries
    {
      Consistent(-1, {})
    }

    /** The groups of each peer, the one joined longest ago first. */
    ghost function Lists(): Table
      reads this
    {
      TableOf(shelves)
    }

    /** When the memberships end. */
    ghost function Times(): map<GroupEntry, int>
      reads index`entries, index.entries`endTime
    {
      map x | x in index.entries :: x.endTime
    }

    constructor (maxPeerGroups: nat, membershipInterval: int, lastMemberQueryTime: int)
      requires maxPeerGroups > 0
      ensures Valid() && shelves == [] && peers == {} && fresh(index) && index.entries == {}
      ensures this.maxPeerGroups == maxPeerGroups && this.membershipInterval == membershipInterval
      ensures this.lastMemberQueryTime == lastMemberQueryTime
    {
      index := new GroupIndex();
      this.maxPeerGroups := maxPeerGroups;
      this.membershipInterval := membershipInterval;
      this.lastMemberQueryTime := lastMemberQueryTime;
      shelves := [];
      peers := {};
      new;
      FilesClose(index.groups, shelves, maxPeerGroups, -1, {});
      ShelvedClose(shelves, peers, index.entries);
    }

    /** The timer of a group entry in use is set. */
    method SetTimer(e: GroupEntry, now: int)
      requires Consistent(-1, {e})
      requires e in index.groups && e in index.entries
      modifies e`endTime, e`timerRunning
      ensures Valid() && e.endTime == now + membershipInterval
    {
      FilesNoPeer(index.groups, shelves, maxPeerGroups, {e}, {});
      e.endTime := now + membershipInterval;
      e.timerRunning := true;
    }

    /** A group the peer is in already */
    method Refresh(o: GroupPeer, group: nat, ghost i: nat) returns (e: GroupEntry)
      requires Valid() && i < |shelves| && shelves[i].peer == o && group in o.groups
      modifies o, `shelves
      ensures Valid() && Lists() == Join(old(Lists()), i, group, maxPeerGroups)
      ensures e in index.groups && index.groups[e] == group && e.peer == o && e in index.entries
      ensures |shelves| == |old(shelves)| && forall k :: 0 <= k < |shelves| ==> shelves[k].peer == old(shelves[k].peer)
    {
      FilesAt(index.groups, shelves, maxPeerGroups, -1, {}, i);
      ShelfAt(shelves, peers, index.entries, i);
      e := o.groups[group];
      ghost var s := shelves[i];
      ghost var j := JoinKnown(shelves, i, group, maxPeerGroups);
      FilesTouched(index.groups, shelves, maxPeerGroups, i, j);
      MoveUsed(o, e, shelves, peers, index.entries, i, j);
      shelves := shelves[i := Touched(s, j)];
    }

    /** The peer's first free entry. */
    method AcquireFree(o: GroupPeer, ghost i: nat) returns (e: GroupEntry)
      requires Valid() && i < |shelves| && shelves[i].peer == o && shelves[i].free != []
      modifies o`free, `shelves
      ensures Consistent(i, {e}) && e.peer == o && e in index.entries && e !in index.groups
      ensures shelves == old(shelves)[i := Taken(old(shelves[i]))]
    {
      FilesAt(index.groups, shelves, maxPeerGroups, -1, {}, i);
      FilesTaken(index.groups, shelves, maxPeerGroups, i);
      e := TakeFree(o, shelves, peers, index.entries, i);
      shelves := shelves[i := Taken(shelves[i])];
    }

    /** The peer's used entry of longest standing, which leaves the index. */
    method AcquireUsed(o: GroupPeer, ghost i: nat) returns (e: GroupEntry)
      requires Valid() && i < |shelves| && shelves[i].peer == o && 0 < |shelves[i].used|
      modifies o, `shelves, index, index.entries`prev, index.entries`next, index.entries`isMaster
      ensures Consistent(i, {e}) && e.peer == o && e in index.entries && e !in index.groups
      ensures index.entries == old(index.entries) && index.groups == old(index.groups) - {e}
      ensures |old(shelves[i]).used| == |old(shelves[i]).list|
      ensures shelves == old(shelves)[i := Dropped(old(shelves[i]), 0)]
    {
      FilesAt(index.groups, shelves, maxPeerGroups, -1, {}, i);
      FilesEvicted(index.groups, shelves, maxPeerGroups, i);
      ShelfAt(shelves, peers, index.entries, i);
      e := o.used[0];
      index.RemoveFromMulticast(e, e.group);
      DropUsed(o, e, shelves, peers, index.entries, i, 0);
      shelves := shelves[i := Dropped(shelves[i], 0)];
    }

    /** The acquired entry is given its group and goes into the lists, the peer's tree and the index. */
    method Enter(o: GroupPeer, e: GroupEntry, group: nat, ghost i: nat)
      requires Consistent(i, {e}) && i < |shelves| && shelves[i].peer == o && e.peer == o
      requires e in index.entries && e !in index.groups && group !in shelves[i].index
      modifies o, e`group, `shelves, index, index.entries`prev, index.entries`next, index.entries`isMaster
      ensures Consistent(-1, {e}) && index.entries == old(index.entries)
      ensures index.groups == old(index.groups)[e := group]
      ensures shelves == old(shelves)[i := Filed(old(shelves[i]), e, group)]
    {
      FilesAt(index.groups, shelves, maxPeerGroups, i, {e}, i);
      FilesHeld(index.groups, shelves, maxPeerGroups, i, e);
      FilesFiled(index.groups, shelves, maxPeerGroups, i, e, group);
      FilesNoPeer(index.groups[e := group], shelves[i := Filed(shelves[i], e, group)], maxPeerGroups, {}, {e});
      PutUsed(o, e, group, shelves, peers, index.entries, i);
      shelves := shelves[i := Filed(shelves[i], e, group)];
      index.AddToMulticast(e, group);
    }

    /** A group the peer is not in yet */
    method JoinGroup(o: GroupPeer, group: nat, ghost i: nat) returns (e: GroupEntry)
      requires Valid() && i < |shelves| && shelves[i].peer == o && group !in o.groups
      modifies peers, index.entries`group, `shelves, index, index.entries`prev, index.entries`next, index.entries`isMaster
      ensures Consistent(-1, {e}) && Lists() == Join(old(Lists()), i, group, maxPeerGroups)
      ensures e in index.groups && index.groups[e] == group && e.peer == o && e in index.entries
      ensures index.entries == old(index.entries)
      ensures forall x <- index.groups :: x != e ==> x in old(index.groups) && index.groups[x] == old(index.groups)[x]
      ensures |shelves| == |old(shelves)| && forall k :: 0 <= k < |shelves| ==> shelves[k].peer == old(shelves[k].peer)
    {
      ghost var before := shelves;
      FilesAt(index.groups, shelves, maxPeerGroups, -1, {}, i);
      ShelfAt(shelves, peers, index.entries, i);
      if o.free != [] {
        e := AcquireFree(o, i);
      } else {
        e := AcquireUsed(o, i);
      }
      JoinNew(before, i, group, maxPeerGroups, e, shelves[i]);
      Enter(o, e, group, i);
    }

    /** add_group_to_peer */
    method AddGroupToPeer(o: GroupPeer, group: nat, now: int, ghost i: nat)
      requires Valid() && i < |shelves| && shelves[i].peer == o
      modifies peers, index.entries, `shelves, index
      ensures Valid() && Lists() == Join(old(Lists()), i, group, maxPeerGroups)
      ensures exists e <- index.groups :: index.groups[e] == group && e.peer == o && e.endTime == now + membershipInterval
      ensures Renewed(old(index.groups), old(Times()), index.groups, Times(), o, [group], now + membershipInterval)
      ensures index.entries == old(index.entries)
      ensures |shelves| == |old(shelves)| && forall k :: 0 <= k < |shelves| ==> shelves[k].peer == old(shelves[k].peer)
    {
      TimesOfAll();
      var e := PlaceGroup(o, group, i);
      SetTimer(e, now);
      OnlyEntry(e);
      RenewedOne(old(index.groups), old(Times()), index.groups, Times(), o, group, now + membershipInterval, e);
    }

    /** The lists and the index after a join, whose timer is still to be set */
    method PlaceGroup(o: GroupPeer, group: nat, ghost i: nat) returns (e: GroupEntry)
      requires Valid() && i < |shelves| && shelves[i].peer == o
      modifies peers, index.entries`group, `shelves, index, index.entries`prev, index.entries`next, index.entries`isMaster
      ensures Consistent(-1, {e}) && Lists() == Join(old(Lists()), i, group, maxPeerGroups)
      ensures e in index.groups && index.groups[e] == group && e.peer == o && e in index.entries
      ensures index.entries == old(index.entries)
      ensures forall x <- index.groups :: x != e ==> x in old(index.groups) && index.groups[x] == old(index.groups)[x]
      ensures |shelves| == |old(shelves)| && forall k :: 0 <= k < |shelves| ==> shelves[k].peer == old(shelves[k].peer)
    {
      ShelfAt(shelves, peers, index.entries, i);
      if group in o.groups {
        e := Refresh(o, group, i);
        FilesNoPeer(index.groups, shelves, maxPeerGroups, {}, {e});
      } else {
        e := JoinGroup(o, group, i);
      }
    }

    lemma {:induction false} TimesOfAll()
      requires Valid()
      ensures forall x <- index.groups :: x in Times()
    {
      forall x <- index.groups ensures x in index.entries { GroupOf(x); }
    }

    lemma {:induction false} OnlyEntry(e: GroupEntry)
      requires Valid() && e in index.groups
      ensures forall x <- index.groups ::
        x in index.entries && (x.peer == e.peer && index.groups[x] == index.groups[e] ==> x == e)
    {
      forall x <- index.groups ensures x in index.entries && (x.peer == e.peer && index.groups[x] == index.groups[e] ==> x == e) {
        GroupOf(x);
        OneEntry(index.groups, shelves, maxPeerGroups, x, e);
      }
    }

    /** remove_group_entry, which the timer of a group entry calls */
    method RemoveGroupEntry(e: GroupEntry) returns (ghost i: nat)
      requires Valid() && e in index.groups && e in index.entries
      modifies e.peer, e`timerRunning, `shelves, index, index.entries`prev, index.entries`next, index.entries`isMaster
      ensures Valid() && index.groups == old(index.groups) - {e} && index.entries == old(index.entries)
      ensures |shelves| == |old(shelves)| && forall k :: 0 <= k < |shelves| ==> shelves[k].peer == old(shelves[k].peer)
      ensures i < |shelves| && shelves[i].peer == e.peer && Lists() == Leave(old(Lists()), i, old(index.groups)[e])
      ensures index.Rest() == Minus(old(index.Rest()), e)
    {
      ghost var j;
      i, j := FilesFind(index.groups, shelves, maxPeerGroups, e);
      FilesAt(index.groups, shelves, maxPeerGroups, -1, {}, i);
      MinusAt(shelves[i].list, j);
      RemoveAt(e, i, j);
    }

    /** remove_group_entry, for an entry at its place in its peer's list */
    method RemoveAt(e: GroupEntry, ghost i: nat, ghost j: nat)
      requires Valid() && e in index.groups && e in index.entries && Only(shelves, i, e.peer)
      requires j < |shelves[i].used| && shelves[i].used[j] == e && shelves[i].list[j] == index.groups[e]
      requires NoDuplicates(shelves[i].used)
      modifies e.peer, e`timerRunning, `shelves, index, index.entries`prev, index.entries`next, index.entries`isMaster
      ensures Valid() && index.groups == old(index.groups) - {e} && index.entries == old(index.entries)
      ensures shelves == old(shelves)[i := Released(old(shelves[i]), j)] && index.Rest() == Minus(old(index.Rest()), e)
    {
      ShelfAt(shelves, peers, index.entries, i);
      FilesReleased(index.groups, shelves, maxPeerGroups, i, j);
      index.RemoveFromMulticast(e, e.group);
      ReleaseUsed(e.peer, e, shelves, peers, index.entries, i, j);
      shelves := shelves[i := Released(shelves[i], j)];
      e.timerRunning := false;
    }

    /** lower_group_timers_to_lmqt: every entry of the group, and no other, has at most the last member query time left */
    method LowerGroupTimers(group: nat, now: int)
      requires Valid()
      modifies index.entries`endTime
      ensures Valid()
      ensures forall e <- index.entries ::
        var limit := now + lastMemberQueryTime;
        e.endTime ==
          if e in index.groups && index.groups[e] == group && old(e.endTime) > limit then limit else old(e.endTime)
    {
      var sig := Sig(group);
      if sig !in index.tree {
        index.NoRing(sig);
        return;
      }
      index.RingFacts(sig);
      var node: GroupEntry? := index.First(sig);
      ghost var nodes, k := index.rings[sig], 0;
      while node != null
        invariant Valid() && 0 <= k <= |nodes|
        invariant node == if k == |nodes| then null else nodes[k]
        invariant forall e <- index.entries ::
          e.endTime == Lowered(old(e.endTime), e in nodes[..k] && index.groups[e] == group, now + lastMemberQueryTime)
        decreases |nodes| - k
      {
        assert nodes[..k + 1] == nodes[..k] + [nodes[k]];
        LowerOne(node, group, now);
        node := index.Next(node, sig, k);
        k := k + 1;
      }
      assert nodes[..|nodes|] == nodes;
    }

    /** One round of that loop. */
    method LowerOne(node: GroupEntry, group: nat, now: int)
      requires Valid() && node in index.groups
      modifies node`endTime
      ensures Valid()
      ensures node.endTime == Lowered(old(node.endTime), index.groups[node] == group, now + lastMemberQueryTime)
    {
      GroupOf(node);
      if node.group == group {
        if node.endTime > now + lastMemberQueryTime {
          node.endTime := now + lastMemberQueryTime;
        }
      }
    }

    /** An entry in use is on the heap with the group it is filed under. */
    lemma {:induction false} GroupOf(e: GroupEntry)
      requires Valid() && e in index.groups
      ensures e.group == index.groups[e] && e.peer in peers && e in index.entries
    {
      var i, j := FilesFind(index.groups, shelves, maxPeerGroups, e);
      ShelfAt(shelves, peers, index.entries, i);
    }

    /** FrameDeciderPeer_Init: a new peer with all its entries free */
    method AddPeer(user: nat) returns (o: GroupPeer)
      requires Valid()
      modifies `shelves, `peers, index`entries
      ensures Valid() && fresh(o) && o.user == user && o in peers && fresh(peers - old(peers))
      ensures fresh(index.entries - old(index.entries))
      ensures Lists() == old(Lists()) + [[]] && |shelves| == |old(shelves)| + 1
      ensures shelves[|old(shelves)|].peer == o && shelves[..|old(shelves)|] == old(shelves)
    {
      assert allocated(peers) && allocated(index.entries);
      ghost var added;
      o, added := MakePeer(maxPeerGroups, user);
      ghost var s := Shelf(o, o.free, [], [], map[]);
      ShelvedOpen(shelves, peers, index.entries);
      FilesPeer(index.groups, shelves, maxPeerGroups, s, peers);
      NewNotInUse(index.groups, shelves, maxPeerGroups, peers, added, o);
      assert ShelfIs(s, index.entries + added);
      index.AddEntries(added);
      shelves := shelves + [s];
      peers := peers + {o};
      ShelvedClose(shelves, peers, index.entries);
    }

    /** The part of FrameDeciderPeer_Free that is about groups */
    method RemovePeer(o: GroupPeer, ghost i: nat)
      requires Valid() && i < |shelves| && shelves[i].peer == o
      modifies `shelves, index, index.entries`prev, index.entries`next, index.entries`isMaster, index.entries`timerRunning
      ensures Valid() && shelves == Without(old(shelves), i) && Lists() == Without(old(Lists()), i)
      ensures index.entries == old(index.entries) && index.Rest() == OthersOf(old(index.Rest()), o)
    {
      FilesAt(index.groups, shelves, maxPeerGroups, -1, {}, i);
      ShelfAt(shelves, peers, index.entries, i);
      ghost var groups0, used := index.groups, o.used;
      FilesGone(groups0, shelves, maxPeerGroups, i);
      OwnInUse(o, i);
      RestInUse();
      OthersNotIn(index.Rest(), SetOf(used), o);
      ForgetEntries(o, used, i);
      ShelvedOpen(shelves, peers, index.entries);
      shelves := Without(shelves, i);
      ShelvedClose(shelves, peers, index.entries);
    }

    /** The loop over the used group entries of a peer that goes away. */
    method ForgetEntries(o: GroupPeer, ghost used: seq<GroupEntry>, ghost i: nat)
      requires Valid() && i < |shelves| && shelves[i].peer == o && used == o.used == shelves[i].used
      requires NoDuplicates(used) && |used| == |shelves[i].list|
      requires forall j :: 0 <= j < |used| ==> used[j] in index.groups && index.groups[used[j]] == shelves[i].list[j]
      modifies index, index.entries`prev, index.entries`next, index.entries`isMaster, index.entries`timerRunning
      ensures index.Index() && index.entries == old(index.entries) && index.groups == old(index.groups) - SetOf(used)
      ensures Shelved(shelves, peers, index.entries) && Timed(index.entries, index.groups, {})
      ensures index.Rest() == NotIn(old(index.Rest()), SetOf(used))
    {
      ghost var groups0, rest0 := index.groups, index.Rest();
      RestInUse();
      NotInNone(rest0);
      assert SetOf(used[..0]) == {};
      for n := 0 to |o.used|
        invariant index.Index() && index.entries == old(index.entries)
        invariant Shelved(shelves, peers, index.entries) && Timed(index.entries, index.groups, {})
        invariant Forgotten(groups0, rest0, used, n)
      {
        ForgetNext(o.used[n], groups0, rest0, used, i, n);
      }
      assert used[..|used|] == used;
    }

    /** The first n of the used entries are gone. */
    ghost predicate Forgotten(groups0: map<GroupEntry, nat>, rest0: seq<GroupEntry>, used: seq<GroupEntry>, n: nat)
      requires n <= |used|
      reads index
    {
      index.groups == groups0 - SetOf(used[..n]) && index.Rest() == NotIn(rest0, SetOf(used[..n]))
    }

    method ForgetNext(entry: GroupEntry, ghost groups0: map<GroupEntry, nat>, ghost rest0: seq<GroupEntry>,
                      ghost used: seq<GroupEntry>, ghost i: nat, ghost n: nat)
      requires index.Index() && Shelved(shelves, peers, index.entries) && Timed(index.entries, index.groups, {})
      requires i < |shelves| && used == shelves[i].used && n < |used| && used[n] == entry && NoDuplicates(used)
      requires |used| == |shelves[i].list| && entry in groups0 && groups0[entry] == shelves[i].list[n]
      requires Forgotten(groups0, rest0, used, n) && NoDuplicates(rest0)
      modifies index, index.entries`prev, index.entries`next, index.entries`isMaster, index.entries`timerRunning
      ensures index.Index() && index.entries == old(index.entries)
      ensures Shelved(shelves, peers, index.entries) && Timed(index.entries, index.groups, {})
      ensures Forgotten(groups0, rest0, used, n + 1)
    {
      assert entry !in used[..n];
      ForgetEntry(entry, i, n);
      assert used[..n + 1] == used[..n] + [entry];
      assert SetOf(used[..n + 1]) == SetOf(used[..n]) + {entry};
      NotInMore(rest0, SetOf(used[..n]), entry);
    }

    method ForgetEntry(entry: GroupEntry, ghost i: nat, ghost n: nat)
      requires index.Index() && Shelved(shelves, peers, index.entries) && Timed(index.entries, index.groups, {})
      requires i < |shelves| && n < |shelves[i].used| && shelves[i].used[n] == entry && entry in index.groups
      requires |shelves[i].used| == |shelves[i].list| && index.groups[entry] == shelves[i].list[n]
      modifies index, index.entries`prev, index.entries`next, index.entries`isMaster, index.entries`timerRunning
      ensures index.Index() && index.entries == old(index.entries) && index.groups == old(index.groups) - {entry}
      ensures index.Rest() == Minus(old(index.Rest()), entry)
      ensures Shelved(shelves, peers, index.entries) && Timed(index.entries, index.groups, {})
    {
      ShelfAt(shelves, peers, index.entries, i);
      index.RemoveFromMulticast(entry, entry.group);
      entry.timerRunning := false;
    }

    /** The entries in use of a peer are its used ones. */
    lemma {:induction false} OwnInUse(o: GroupPeer, i: nat)
      requires Valid() && i < |shelves| && shelves[i].peer == o
      ensures forall e :: e in index.groups && e.peer == o ==> e in shelves[i].used
      ensures forall e :: e in shelves[i].used ==> e.peer == o
    {
      forall e | e in index.groups && e.peer == o ensures e in shelves[i].used {
        var k, j := FilesFind(index.groups, shelves, maxPeerGroups, e);
        FilesAt(index.groups, shelves, maxPeerGroups, -1, {}, i);
      }
      FilesAt(index.groups, shelves, maxPeerGroups, -1, {}, i);
    }

    /** The iterator only visits entries in use, each once. */
    lemma {:induction false} RestInUse()
      requires Valid()
      ensures NoDuplicates(index.Rest()) && forall e :: e in index.Rest() ==> e in index.groups
    {
      if index.it != null {
        SortingKeysOf();
        var s := Sig(index.groups[index.it]);
        if s !in index.tree { index.NoRing(s); }
        index.RingFacts(s);
        var k :| 0 <= k < |index.rings[s]| && index.rings[s][k] == index.it;
        FromAt(index.rings[s], k);
      }
    }

    /** The start of an iteration over the entries of a signature. */
    method Iterate(sig: nat)
      requires Valid() && sig in index.tree
      modifies index`it
      ensures Valid() && sig in index.rings && index.Rest() == index.rings[sig]
    {
      index.Iterate(sig);
    }

    method Advance() returns (e: GroupEntry)
      requires Valid() && index.it != null
      modifies index`it
      ensures Valid() && old(index.Rest()) == [e] + index.Rest()
    {
      e := index.Advance();
    }

    /** Where a multicast frame goes: the peers of the entries in the list of its signature, in order. */
    ghost function Destinations(sig: nat): seq<GroupPeer>
      reads this, index
    {
      if sig in index.rings then PeersOf(index.rings[sig]) else []
    }

    /** They are exactly the peers that are in a group with the signature. */
    lemma {:induction false} DestinationsExact(sig: nat, p: GroupPeer)
      requires Valid()
      ensures p in Destinations(sig) <==>
        exists i :: 0 <= i < |shelves| && shelves[i].peer == p && exists g <- Lists()[i] :: Sig(g) == sig
    {
      SortingKeysOf();
      if p in Destinations(sig) {
        index.RingFacts(sig);
        var k :| 0 <= k < |index.rings[sig]| && index.rings[sig][k].peer == p;
        var i, j := FilesFind(index.groups, shelves, maxPeerGroups, index.rings[sig][k]);
        assert Lists()[i][j] in Lists()[i];
      }
      if i :| 0 <= i < |shelves| && shelves[i].peer == p && exists g <- Lists()[i] :: Sig(g) == sig {
        var g :| g in Lists()[i] && Sig(g) == sig;
        var j :| 0 <= j < |shelves[i].list| && shelves[i].list[j] == g;
        FilesAt(index.groups, shelves, maxPeerGroups, -1, {}, i);
        var e := shelves[i].used[j];
        if sig !in index.tree { index.NoRing(sig); }
        index.RingFacts(sig);
        var k :| 0 <= k < |index.rings[sig]| && index.rings[sig][k] == e;
        assert PeersOf(index.rings[sig])[k] == p;
      }
    }

    lemma {:induction false} SortingKeysOf()
      requires Valid()
      ensures index.tree.Keys == index.rings.Keys
    {
      SortingKeys(index.tree, index.rings, index.groups);
    }
  }

  /** The entries that belong to another peer. */
  ghost function OthersOf(s: seq<GroupEntry>, o: GroupPeer): seq<GroupEntry> {
    if s == [] then [] else if s[0].peer == o then OthersOf(s[1..], o) else [s[0]] + OthersOf(s[1..], o)
  }

  ghost function NotIn(s: seq<GroupEntry>, gone: set<GroupEntry>): seq<GroupEntry> {
    if s == [] then [] else if s[0] in gone then NotIn(s[1..], gone) else [s[0]] + NotIn(s[1..], gone)
  }

  lemma {:induction false} NotInOld(s: seq<GroupEntry>, gone: set<GroupEntry>, x: GroupEntry)
    requires x !in s
    ensures x !in NotIn(s, gone)
  {
    if s != [] { NotInOld(s[1..], gone, x); }
  }

  lemma {:induction false} NotInMore(s: seq<GroupEntry>, gone: set<GroupEntry>, x: GroupEntry)
    requires NoDuplicates(s)
    ensures Minus(NotIn(s, gone), x) == NotIn(s, gone + {x})
  {
    if s == [] || s[0] in gone {
      if s != [] { NotInMore(s[1..], gone, x); }
      return;
    }
    var rest := NotIn(s[1..], gone);
    assert NotIn(s, gone) == [s[0]] + rest && ([s[0]] + rest)[1..] == rest;
    NotInMore(s[1..], gone, x);
    if s[0] == x {
      RestMember(s, x);
      NotInOld(s[1..], gone, x);
      MinusNone(rest, x);
    }
  }

  lemma {:induction false} NotInNone(s: seq<GroupEntry>)
    ensures NotIn(s, {}) == s
  {
    if s != [] { NotInNone(s[1..]); }
  }

  /** Taking out all entries of a peer leaves those of the others. */
  lemma {:induction false} OthersNotIn(s: seq<GroupEntry>, gone: set<GroupEntry>, o: GroupPeer)
    requires forall e :: e in s ==> (e in gone <==> e.peer == o)
    ensures NotIn(s, gone) == OthersOf(s, o)
  {
    if s != [] { OthersNotIn(s[1..], gone, o); }
  }

  ghost function PeersOf(nodes: seq<GroupEntry>): (r: seq<GroupPeer>)
    ensures |r| == |nodes| && forall i :: 0 <= i < |r| ==> r[i] == nodes[i].peer
  {
    seq(|nodes|, i requires 0 <= i < |nodes| => nodes[i].peer)
  }

  /** The entries of a new peer. */
  method MakePeer(max: nat, user: nat) returns (o: GroupPeer, ghost added: set<GroupEntry>)
    ensures o.user == user
    ensures fresh(o) && fresh(added) && o.used == [] && o.groups == map[]
    ensures ListsOk(o, o.free, [], max, {})
    ensures forall e <- added :: e.peer == o && !e.timerRunning
    ensures forall j :: 0 <= j < |o.free| ==> o.free[j] in added
  {
    o := new GroupPeer(user);
    added := {};
    for n := 0 to max
      invariant |o.free| == n && o.used == [] && o.groups == map[] && NoDuplicates(o.free) && fresh(o) && fresh(added)
      invariant forall e <- added :: e.peer == o && !e.timerRunning
      invariant forall j :: 0 <= j < n ==> o.free[j] in added
    {
      var entry := new GroupEntry(o);
      o.free := o.free + [entry];
      added := added + {entry};
    }
  }

  lemma {:induction false} FilesPeer(groups: map<GroupEntry, nat>, shelves: seq<Shelf>, max: nat, s: Shelf,
                                     peers: set<GroupPeer>)
    requires Files(groups, shelves, max, -1, {}) && ShelfOk(s, max, {}) && s.used == []
    requires s.peer !in peers && forall k :: 0 <= k < |shelves| ==> shelves[k].peer in peers
    ensures Files(groups, shelves + [s], max, -1, {})
  {
    FilesOpen(groups, shelves, max, -1, {});
    var more := shelves + [s];
    forall e <- groups ensures Listed(more, e) {
      assert Listed(shelves, e);
      var k :| 0 <= k < |shelves| && e in shelves[k].used;
      assert e in more[k].used;
    }
    FilesClose(groups, more, max, -1, {});
  }

  /** Entries of a peer that has no shelf are not in use. */
  lemma {:induction false} NewNotInUse(groups: map<GroupEntry, nat>, shelves: seq<Shelf>, max: nat, peers: set<GroupPeer>,
                                       added: set<GroupEntry>, o: GroupPeer)
    requires Files(groups, shelves, max, -1, {}) && o !in peers && forall e <- added :: e.peer == o
    requires forall k :: 0 <= k < |shelves| ==> shelves[k].peer in peers
    ensures forall e <- added :: e !in groups
  {
    FilesOpen(groups, shelves, max, -1, {});
    forall e <- groups ensures e.peer != o {
      assert Listed(shelves, e);
      var k :| 0 <= k < |shelves| && e in shelves[k].used;
      assert ShelfOk(shelves[k], max, {});
    }
  }

  lemma {:induction false} TiedGone(groups: map<GroupEntry, nat>, shelves: seq<Shelf>, i: nat)
    requires Tied(groups, shelves) && i < |shelves|
    requires forall k :: 0 <= k < |shelves| && k != i ==> forall e <- shelves[k].used :: e !in shelves[i].used
    ensures Tied(groups - SetOf(shelves[i].used), Without(shelves, i))
  {
    var groups', less := groups - SetOf(shelves[i].used), Without(shelves, i);
    forall k, l | 0 <= k < |less| && 0 <= l < |less[k].used|
      ensures less[k].used[l] in groups' && groups'[less[k].used[l]] == less[k].list[l]
    {
      var k' := if k < i then k else k + 1;
      assert less[k] == shelves[k'] && shelves[k'].used[l] in shelves[k'].used;
    }
    forall e <- groups' ensures Listed(less, e) {
      assert Listed(shelves, e);
      var k :| 0 <= k < |shelves| && e in shelves[k].used;
      assert e in less[if k < i then k else k - 1].used;
    }
  }

  /** A peer's shelf is taken away, and its entries are not in use any more. */
  lemma {:induction false} FilesGone(groups: map<GroupEntry, nat>, shelves: seq<Shelf>, max: nat, i: nat)
    requires Files(groups, shelves, max, -1, {}) && i < |shelves|
    ensures Files(groups - SetOf(shelves[i].used), Without(shelves, i), max, -1, {})
  {
    FilesOpen(groups, shelves, max, -1, {});
    forall k | 0 <= k < |shelves| && k != i ensures forall e <- shelves[k].used :: e !in shelves[i].used {
      assert ShelfOk(shelves[k], max, {}) && ShelfOk(shelves[i], max, {});
    }
    TiedGone(groups, shelves, i);
    var less := Without(shelves, i);
    forall k | 0 <= k < |less| ensures ShelfOk(less[k], max, {}) {
      assert less[k] == shelves[if k < i then k else k + 1];
    }
    FilesClose(groups - SetOf(shelves[i].used), less, max, -1, {});
  }

  ghost function SetOf(s: seq<GroupEntry>): set<GroupEntry> {
    set e | e in s
  }

  function Lowered(end: int, concerned: bool, limit: int): int {
    if concerned && end > limit then limit else end
  }

  /** A held entry is in no used list. */
  lemma {:induction false} FilesHeld(groups: map<GroupEntry, nat>, shelves: seq<Shelf>, max: nat, i: nat, e: GroupEntry)
    requires Files(groups, shelves, max, i, {e}) && i < |shelves| && e.peer == shelves[i].peer
    ensures forall k :: 0 <= k < |shelves| ==> e !in shelves[k].used
  {
    FilesOpen(groups, shelves, max, i, {e});
    TiedApart(shelves, max, i, {e}, i, e);
    assert ShelfOk(shelves[i], max, {e});
  }

  lemma {:induction false} FilesNoPeer(groups: map<GroupEntry, nat>, shelves: seq<Shelf>, max: nat, held: set<GroupEntry>,
                                       held': set<GroupEntry>)
    requires Files(groups, shelves, max, -1, held)
    ensures Files(groups, shelves, max, -1, held')
  {
    FilesOpen(groups, shelves, max, -1, held);
    FilesClose(groups, shelves, max, -1, held');
  }

  /** A join of a group that the peer is in moves it to the end. */
  lemma {:induction false} JoinKnown(shelves: seq<Shelf>, i: nat, group: nat, max: nat) returns (j: nat)
    requires i < |shelves| && |shelves[i].used| == |shelves[i].list| && NoDuplicates(shelves[i].list)
    requires group in shelves[i].list
    ensures j < |shelves[i].list| && shelves[i].list[j] == group
    ensures TableOf(shelves[i := Touched(shelves[i], j)]) == Join(TableOf(shelves), i, group, max)
  {
    j :| j < |shelves[i].list| && shelves[i].list[j] == group;
    MinusAt(shelves[i].list, j);
  }

  /** A join of a new group, when a free entry is taken or the oldest used one. */
  lemma {:induction false} JoinNew(shelves: seq<Shelf>, i: nat, group: nat, max: nat, e: GroupEntry, s': Shelf)
    requires i < |shelves| && |shelves[i].used| == |shelves[i].list| && group !in shelves[i].list && max > 0
    requires if |shelves[i].list| == max then s'.list == Without(shelves[i].list, 0) else s'.list == shelves[i].list
    ensures TableOf(shelves[i := Filed(s', e, group)]) == Join(TableOf(shelves), i, group, max)
  {
    if |shelves[i].list| == max {
      assert Without(shelves[i].list, 0) == shelves[i].list[1..];
    }
  }
}
