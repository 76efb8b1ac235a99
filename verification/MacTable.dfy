/** The MAC tables of FrameDecider.c: one index over all peers, and a least-recently-used list for each. */
module MacTable {
  import opened Bytes
  import opened Common

  // ---------- the simple model: each peer owns a list of addresses, the least recently seen first ----------

  type Table = seq<seq<bytes>>

  /** The address goes to the end of the learner's list, whose oldest makes room if need be, and to nobody else's. */
  ghost function Learn(t: Table, i: nat, m: bytes, max: nat): (r: Table)
    requires i < |t|
    ensures |r| == |t|
  {
    seq(|t|, k requires 0 <= k < |t| =>
      if k != i then Minus(t[k], m)
      else if m in t[k] then Minus(t[k], m) + [m]
      else Appended(t[k], m, max))
  }

  /** No address is listed twice, by one peer or by two. */
  ghost predicate Distinct(t: Table) {
    forall i, j, k, l :: 0 <= i < |t| && 0 <= j < |t[i]| && 0 <= k < |t| && 0 <= l < |t[k]| && t[i][j] == t[k][l] ==>
      i == k && j == l
  }

  ghost predicate Bounded(t: Table, max: nat) {
    forall i :: 0 <= i < |t| ==> |t[i]| <= max
  }

  /**
   Who owns what after an address has been learned: it is the learner's alone, and every other address stays where
   it was, except the learner's oldest one if its list was full and did not hold the new address. The others keep
   their order.
   */
  lemma {:induction false} LearnExact(t: Table, i: nat, m: bytes, max: nat, j: nat, x: bytes)
    requires Distinct(t) && i < |t| && j < |t| && max > 0
    ensures x in Learn(t, i, m, max)[j] <==>
      if x == m then j == i else x in t[j] && !(j == i && m !in t[i] && |t[i]| == max && x == t[i][0])
    ensures m !in t[j] ==>
      Learn(t, i, m, max)[j] == if j != i then t[j] else (if |t[i]| == max then t[i][1..] else t[i]) + [m]
    ensures forall p :: 0 <= p < |t[j]| && t[j][p] == m ==>
      Learn(t, i, m, max)[j] == t[j][..p] + t[j][p + 1..] + if j == i then [m] else []
  {
    LearnedOrder(t, i, m, max, j);
    OwnDistinct(t, i);
    OwnDistinct(t, j);
    MinusKeeps(t[j], m);
    if j == i && m !in t[i] && |t[i]| == max {
      RestMember(t[i], x);
    }
  }

  lemma {:induction false} LearnedOrder(t: Table, i: nat, m: bytes, max: nat, j: nat)
    requires Distinct(t) && i < |t| && j < |t| && max > 0
    ensures m !in t[j] ==>
      Learn(t, i, m, max)[j] == if j != i then t[j] else (if |t[i]| == max then t[i][1..] else t[i]) + [m]
    ensures forall p :: 0 <= p < |t[j]| && t[j][p] == m ==>
      Learn(t, i, m, max)[j] == t[j][..p] + t[j][p + 1..] + if j == i then [m] else []
  {
    OwnDistinct(t, j);
    if m !in t[j] {
      MinusNone(t[j], m);
    }
    forall p | 0 <= p < |t[j]| && t[j][p] == m
      ensures Learn(t, i, m, max)[j] == t[j][..p] + t[j][p + 1..] + if j == i then [m] else []
    {
      MinusAt(t[j], p);
    }
  }

  lemma {:induction false} OwnDistinct(t: Table, i: nat)
    requires Distinct(t) && i < |t|
    ensures NoDuplicates(t[i])
  {
  }

  // ---------- the entries ----------

  /** struct _FrameDecider_mac_entry */
  class MacEntry {
    const peer: MacPeer
    var mac: bytes

    constructor (peer: MacPeer)
      ensures this.peer == peer
    {
      this.peer := peer;
      mac := [];
    }
  }

  /** The part of FrameDeciderPeer that is about MAC addresses. */
  class MacPeer {
    const user: nat
    var free: seq<MacEntry>
    var used: seq<MacEntry>

    constructor (user: nat)
      ensures free == [] && used == [] && this.user == user
    {
      this.user := user;
      free, used := [], [];
    }
  }

  /** A peer's lists as values, with the addresses of the used entries. */
  datatype Shelf = Shelf(peer: MacPeer, free: seq<MacEntry>, used: seq<MacEntry>, macs: seq<bytes>)

  /** The heap holds what the shelf says. */
  ghost predicate ShelfIs(s: Shelf)
    reads s.peer, s.used
  {
    && s.peer.free == s.free && s.peer.used == s.used && |s.used| == |s.macs|
    && forall j :: 0 <= j < |s.used| ==> s.used[j].mac == s.macs[j]
  }

  /** Every entry of the peer is in one of its lists, once; `held` entries are just being moved. */
  ghost predicate ShelfOk(s: Shelf, max: nat, held: set<MacEntry>) {
    && |s.used| == |s.macs|
    && NoDuplicates(s.free) && NoDuplicates(s.used)
    && (forall j :: 0 <= j < |s.free| ==> s.free[j].peer == s.peer && s.free[j] !in s.used && s.free[j] !in held)
    && (forall j :: 0 <= j < |s.used| ==> s.used[j].peer == s.peer && s.used[j] !in held)
    && |s.free| + |s.used| + |held| == max
  }

  ghost predicate Located(shelves: seq<Shelf>, mac: bytes) {
    exists i :: 0 <= i < |shelves| && mac in shelves[i].macs
  }

  /** The MAC tree finds exactly the used entries. */
  ghost predicate TreeOk(tree: map<bytes, MacEntry>, shelves: seq<Shelf>) {
    && (forall i :: 0 <= i < |shelves| ==> |shelves[i].used| == |shelves[i].macs|)
    && (forall i, j :: 0 <= i < |shelves| && 0 <= j < |shelves[i].macs| ==>
      shelves[i].macs[j] in tree && tree[shelves[i].macs[j]] == shelves[i].used[j])
    && (forall m <- tree :: Located(shelves, m))
  }

  ghost function TableOf(shelves: seq<Shelf>): (t: Table)
    ensures |t| == |shelves| && forall i :: 0 <= i < |t| ==> t[i] == shelves[i].macs
  {
    seq(|shelves|, i requires 0 <= i < |shelves| => shelves[i].macs)
  }

  /** All of the tables; entries in `held` belong to peer h. */
  ghost predicate Tables(tree: map<bytes, MacEntry>, shelves: seq<Shelf>, max: nat, h: int, held: set<MacEntry>) {
    && TreeOk(tree, shelves)
    && (forall i :: 0 <= i < |shelves| ==> ShelfOk(shelves[i], max, if i == h then held else {}))
    && (forall i, k :: 0 <= i < k < |shelves| ==> shelves[i].peer != shelves[k].peer)
  }

  lemma {:induction false} TablesDistinct(tree: map<bytes, MacEntry>, shelves: seq<Shelf>, max: nat, h: int, held: set<MacEntry>)
    requires Tables(tree, shelves, max, h, held)
    ensures Distinct(TableOf(shelves)) && Bounded(TableOf(shelves), max)
  {
    var t := TableOf(shelves);
    forall i, j, k, l | 0 <= i < |t| && 0 <= j < |t[i]| && 0 <= k < |t| && 0 <= l < |t[k]| && t[i][j] == t[k][l]
      ensures i == k && j == l
    {
      assert shelves[i].used[j] == shelves[k].used[l];
      assert shelves[i].used[j].peer == shelves[i].peer && shelves[k].used[l].peer == shelves[k].peer;
    }
  }

  // ---------- one step of the lists and the tree ----------

  function Touched(s: Shelf, j: nat): Shelf
    requires j < |s.used| == |s.macs|
  {
    s.(used := ToEnd(s.used, j), macs := ToEnd(s.macs, j))
  }

  function Dropped(s: Shelf, j: nat): Shelf
    requires j < |s.used| == |s.macs|
  {
    s.(used := Without(s.used, j), macs := Without(s.macs, j))
  }

  function Released(s: Shelf, j: nat): Shelf
    requires j < |s.used| == |s.macs|
  {
    Dropped(s, j).(free := s.free + [s.used[j]])
  }

  function Taken(s: Shelf): Shelf
    requires s.free != []
  {
    s.(free := s.free[1..])
  }

  function Filed(s: Shelf, e: MacEntry, mac: bytes): Shelf {
    s.(used := s.used + [e], macs := s.macs + [mac])
  }

  lemma {:induction false} TouchedShelf(s: Shelf, j: nat, max: nat)
    requires ShelfOk(s, max, {}) && j < |s.used|
    ensures ShelfOk(Touched(s, j), max, {})
  {
    var u := ToEnd(s.used, j);
    forall k | 0 <= k < |u| ensures u[k] in s.used && u[k].peer == s.peer {
    }
  }

  lemma {:induction false} DroppedShelf(s: Shelf, j: nat, max: nat)
    requires ShelfOk(s, max, {}) && j < |s.used|
    ensures ShelfOk(Dropped(s, j), max, {s.used[j]}) && ShelfOk(Released(s, j), max, {})
    ensures s.used[j].peer == s.peer && s.used[j] !in s.free && s.used[j] !in Dropped(s, j).used
  {
    var u := Without(s.used, j);
    forall k | 0 <= k < |u| ensures u[k] in s.used && u[k] != s.used[j] {
    }
  }

  lemma {:induction false} TakenShelf(s: Shelf, max: nat)
    requires ShelfOk(s, max, {}) && s.free != []
    ensures ShelfOk(Taken(s), max, {s.free[0]}) && s.free[0].peer == s.peer && s.free[0] !in s.used
  {
  }

  lemma {:induction false} FiledShelf(s: Shelf, e: MacEntry, mac: bytes, max: nat)
    requires ShelfOk(s, max, {e}) && e.peer == s.peer
    ensures ShelfOk(Filed(s, e, mac), max, {})
  {
  }

  lemma {:induction false} TreeTouched(tree: map<bytes, MacEntry>, shelves: seq<Shelf>, i: nat, j: nat)
    requires TreeOk(tree, shelves) && i < |shelves| && j < |shelves[i].used|
    ensures TreeOk(tree, shelves[i := Touched(shelves[i], j)])
  {
    var s, s' := shelves[i], Touched(shelves[i], j);
    var shelves' := shelves[i := s'];
    forall m <- tree ensures Located(shelves', m) {
      assert Located(shelves, m);
      var k :| 0 <= k < |shelves| && m in shelves[k].macs;
      ToEndKeeps(s.macs, j);
      assert m in shelves'[k].macs;
    }
  }

  /** The address at place j of shelf i is nowhere else. */
  ghost predicate OnlyThere(shelves: seq<Shelf>, i: nat, j: nat) {
    && i < |shelves| && j < |shelves[i].macs|
    && (forall l :: 0 <= l < |shelves[i].macs| && l != j ==> shelves[i].macs[l] != shelves[i].macs[j])
    && (forall k :: 0 <= k < |shelves| && k != i ==> shelves[i].macs[j] !in shelves[k].macs)
  }

  lemma {:induction false} DistinctOnlyThere(shelves: seq<Shelf>, i: nat, j: nat)
    requires Distinct(TableOf(shelves)) && i < |shelves| && j < |shelves[i].macs|
    ensures OnlyThere(shelves, i, j)
  {
    var t := TableOf(shelves);
    forall k, l | 0 <= k < |shelves| && k != i && 0 <= l < |shelves[k].macs|
      ensures shelves[k].macs[l] != shelves[i].macs[j]
    {
      assert t[k][l] == t[i][j] ==> k == i;
    }
    forall l | 0 <= l < |shelves[i].macs| && l != j ensures shelves[i].macs[l] != shelves[i].macs[j] {
      assert t[i][l] == t[i][j] ==> l == j;
    }
  }

  lemma {:induction false} LocatedDropped(shelves: seq<Shelf>, i: nat, j: nat, s': Shelf, m: bytes)
    requires Located(shelves, m) && i < |shelves| && j < |shelves[i].macs|
    requires s'.macs == Without(shelves[i].macs, j) && m != shelves[i].macs[j]
    ensures Located(shelves[i := s'], m)
  {
    var s := shelves[i];
    var k :| 0 <= k < |shelves| && m in shelves[k].macs;
    if k == i {
      var l :| 0 <= l < |s.macs| && s.macs[l] == m;
      assert s'.macs[if l < j then l else l - 1] == m;
    }
    assert m in shelves[i := s'][k].macs;
  }

  lemma {:induction false} TreeDropped(tree: map<bytes, MacEntry>, shelves: seq<Shelf>, i: nat, j: nat, s': Shelf)
    requires TreeOk(tree, shelves) && OnlyThere(shelves, i, j)
    requires s'.macs == Without(shelves[i].macs, j) && s'.used == Without(shelves[i].used, j)
    ensures TreeOk(tree - {shelves[i].macs[j]}, shelves[i := s'])
  {
    var mac, shelves' := shelves[i].macs[j], shelves[i := s'];
    forall k, l | 0 <= k < |shelves'| && 0 <= l < |shelves'[k].macs|
      ensures shelves'[k].macs[l] in tree - {mac} && tree[shelves'[k].macs[l]] == shelves'[k].used[l]
    {
      if k == i {
        assert s'.macs[l] == shelves[i].macs[if l < j then l else l + 1];
      } else {
        assert shelves[k].macs[l] in shelves[k].macs;
      }
    }
    forall m <- tree - {mac} ensures Located(shelves', m) {
      LocatedDropped(shelves, i, j, s', m);
    }
  }

  lemma {:induction false} TreeFiled(tree: map<bytes, MacEntry>, shelves: seq<Shelf>, i: nat, e: MacEntry, mac: bytes)
    requires TreeOk(tree, shelves) && i < |shelves| && mac !in tree
    ensures TreeOk(tree[mac := e], shelves[i := Filed(shelves[i], e, mac)])
  {
    var tree', shelves' := tree[mac := e], shelves[i := Filed(shelves[i], e, mac)];
    forall m <- tree' ensures Located(shelves', m) {
      if m == mac {
        assert shelves'[i].macs[|shelves[i].macs|] == m;
        assert m in shelves'[i].macs;
      } else {
        assert Located(shelves, m);
        var k :| 0 <= k < |shelves| && m in shelves[k].macs;
        assert m in shelves'[k].macs;
      }
    }
  }

  /** Tables, wrapped so that the methods carry it along by name. */
  ghost predicate Filing(tree: map<bytes, MacEntry>, shelves: seq<Shelf>, max: nat, h: int, held: set<MacEntry>,
                         w: nat := 3) {
    if w == 0 then Tables(tree, shelves, max, h, held) else Filing(tree, shelves, max, h, held, w - 1)
  }

  lemma {:induction false} FilingOpen(tree: map<bytes, MacEntry>, shelves: seq<Shelf>, max: nat, h: int,
                                      held: set<MacEntry>, w: nat := 3)
    requires Filing(tree, shelves, max, h, held, w)
    ensures Tables(tree, shelves, max, h, held)
  {
    if w > 0 { FilingOpen(tree, shelves, max, h, held, w - 1); }
  }

  lemma {:induction false} FilingClose(tree: map<bytes, MacEntry>, shelves: seq<Shelf>, max: nat, h: int,
                                       held: set<MacEntry>, w: nat := 3)
    requires Tables(tree, shelves, max, h, held)
    ensures Filing(tree, shelves, max, h, held, w)
  {
    if w > 0 { FilingClose(tree, shelves, max, h, held, w - 1); }
  }

  /** An address in the tree is some peer's, at some place. */
  lemma {:induction false} Locate(tree: map<bytes, MacEntry>, shelves: seq<Shelf>, max: nat, h: int, held: set<MacEntry>,
                                  mac: bytes) returns (i: nat, j: nat)
    requires Filing(tree, shelves, max, h, held) && mac in tree
    ensures i < |shelves| && j < |shelves[i].used| == |shelves[i].macs|
    ensures shelves[i].macs[j] == mac && shelves[i].used[j] == tree[mac] && tree[mac].peer == shelves[i].peer
  {
    FilingOpen(tree, shelves, max, h, held);
    assert Located(shelves, mac);
    i :| i < |shelves| && mac in shelves[i].macs;
    j :| j < |shelves[i].macs| && shelves[i].macs[j] == mac;
    assert ShelfOk(shelves[i], max, if i == h then held else {});
  }

  lemma {:induction false} FilingTouched(tree: map<bytes, MacEntry>, shelves: seq<Shelf>, max: nat, i: nat, j: nat)
    requires Filing(tree, shelves, max, -1, {}) && i < |shelves| && j < |shelves[i].used| == |shelves[i].macs|
    ensures Filing(tree, shelves[i := Touched(shelves[i], j)], max, -1, {})
    ensures Minus(shelves[i].used, shelves[i].used[j]) == Without(shelves[i].used, j)
  {
    FilingOpen(tree, shelves, max, -1, {});
    TouchedShelf(shelves[i], j, max);
    TreeTouched(tree, shelves, i, j);
    MinusAt(shelves[i].used, j);
    FilingClose(tree, shelves[i := Touched(shelves[i], j)], max, -1, {});
  }

  lemma {:induction false} FilingReleased(tree: map<bytes, MacEntry>, shelves: seq<Shelf>, max: nat, i: nat, j: nat,
                                          mac: bytes)
    requires Filing(tree, shelves, max, -1, {}) && i < |shelves| && j < |shelves[i].used| == |shelves[i].macs|
    requires mac == shelves[i].macs[j]
    ensures Filing(tree - {mac}, shelves[i := Released(shelves[i], j)], max, -1, {})
    ensures Minus(shelves[i].used, shelves[i].used[j]) == Without(shelves[i].used, j)
  {
    FilingOpen(tree, shelves, max, -1, {});
    TablesDistinct(tree, shelves, max, -1, {});
    DistinctOnlyThere(shelves, i, j);
    DroppedShelf(shelves[i], j, max);
    TreeDropped(tree, shelves, i, j, Released(shelves[i], j));
    MinusAt(shelves[i].used, j);
    FilingClose(tree - {mac}, shelves[i := Released(shelves[i], j)], max, -1, {});
  }

  /** The oldest used entry is taken out, to be used again. */
  lemma {:induction false} FilingEvicted(tree: map<bytes, MacEntry>, shelves: seq<Shelf>, max: nat, i: nat, mac: bytes)
    requires Filing(tree, shelves, max, -1, {}) && i < |shelves| && 0 < |shelves[i].used| == |shelves[i].macs|
    requires mac == shelves[i].macs[0]
    ensures Filing(tree - {mac}, shelves[i := Dropped(shelves[i], 0)], max, i, {shelves[i].used[0]})
    ensures Minus(shelves[i].used, shelves[i].used[0]) == Without(shelves[i].used, 0)
    ensures shelves[i].used[0].peer == shelves[i].peer
  {
    FilingOpen(tree, shelves, max, -1, {});
    TablesDistinct(tree, shelves, max, -1, {});
    DistinctOnlyThere(shelves, i, 0);
    DroppedShelf(shelves[i], 0, max);
    TreeDropped(tree, shelves, i, 0, Dropped(shelves[i], 0));
    MinusAt(shelves[i].used, 0);
    FilingClose(tree - {mac}, shelves[i := Dropped(shelves[i], 0)], max, i, {shelves[i].used[0]});
  }

  lemma {:induction false} FilingTaken(tree: map<bytes, MacEntry>, shelves: seq<Shelf>, max: nat, i: nat)
    requires Filing(tree, shelves, max, -1, {}) && i < |shelves| && shelves[i].free != []
    ensures Filing(tree, shelves[i := Taken(shelves[i])], max, i, {shelves[i].free[0]})
    ensures Minus(shelves[i].free, shelves[i].free[0]) == shelves[i].free[1..]
    ensures shelves[i].free[0].peer == shelves[i].peer
  {
    FilingOpen(tree, shelves, max, -1, {});
    TakenShelf(shelves[i], max);
    var shelves' := shelves[i := Taken(shelves[i])];
    assert TreeOk(tree, shelves') by {
      forall m <- tree ensures Located(shelves', m) {
        assert Located(shelves, m);
        var k :| 0 <= k < |shelves| && m in shelves[k].macs;
        assert m in shelves'[k].macs;
      }
    }
    FilingClose(tree, shelves', max, i, {shelves[i].free[0]});
  }

  lemma {:induction false} FilingFiled(tree: map<bytes, MacEntry>, shelves: seq<Shelf>, max: nat, i: nat, e: MacEntry,
                                       mac: bytes)
    requires Filing(tree, shelves, max, i, {e}) && i < |shelves| && e.peer == shelves[i].peer && mac !in tree
    ensures Filing(tree[mac := e], shelves[i := Filed(shelves[i], e, mac)], max, -1, {})
  {
    FilingOpen(tree, shelves, max, i, {e});
    FiledShelf(shelves[i], e, mac, max);
    TreeFiled(tree, shelves, i, e, mac);
    FilingClose(tree[mac := e], shelves[i := Filed(shelves[i], e, mac)], max, -1, {});
  }

  /** The shelf and all objects on it are in repr. */
  ghost predicate Owned(s: Shelf, repr: set<object>) {
    && s.peer in repr && |s.used| == |s.macs| && (forall j :: 0 <= j < |s.used| ==> s.used[j] in repr)
    && (forall j :: 0 <= j < |s.free| ==> s.free[j] in repr)
  }

  /** The heap holds what the shelves say; wrapped like Filing. */
  ghost predicate Shelved(shelves: seq<Shelf>, repr: set<object>, w: nat := 3)
    reads repr
  {
    if w == 0 then forall i :: 0 <= i < |shelves| ==> Owned(shelves[i], repr) && ShelfIs(shelves[i])
    else Shelved(shelves, repr, w - 1)
  }

  lemma {:induction false} ShelvedOpen(shelves: seq<Shelf>, repr: set<object>, w: nat := 3)
    requires Shelved(shelves, repr, w)
    ensures forall i :: 0 <= i < |shelves| ==> Owned(shelves[i], repr) && ShelfIs(shelves[i])
  {
    if w > 0 { ShelvedOpen(shelves, repr, w - 1); }
  }

  lemma {:induction false} ShelvedClose(shelves: seq<Shelf>, repr: set<object>, w: nat := 3)
    requires forall i :: 0 <= i < |shelves| ==> Owned(shelves[i], repr) && ShelfIs(shelves[i])
    ensures Shelved(shelves, repr, w)
  {
    if w > 0 { ShelvedClose(shelves, repr, w - 1); }
  }

  lemma {:induction false} ShelfAt(shelves: seq<Shelf>, repr: set<object>, i: nat)
    requires Shelved(shelves, repr) && i < |shelves|
    ensures Owned(shelves[i], repr) && ShelfIs(shelves[i])
  {
    ShelvedOpen(shelves, repr);
  }

  /** What must not be touched for the other shelves to stay as they are. */
  lemma {:induction false} FilingApart(tree: map<bytes, MacEntry>, shelves: seq<Shelf>, max: nat, h: int,
                                       held: set<MacEntry>, i: nat)
    requires Filing(tree, shelves, max, h, held) && i < |shelves|
    ensures forall k :: 0 <= k < |shelves| && k != i ==> shelves[k].peer != shelves[i].peer
    ensures forall k :: 0 <= k < |shelves| && k != i ==> forall e <- shelves[k].used :: e.peer == shelves[k].peer
    ensures shelves[i].free == [] ==> |shelves[i].used| + (if i == h then |held| else 0) == max
  {
    FilingOpen(tree, shelves, max, h, held);
  }

  lemma {:induction false} FilingHeld(tree: map<bytes, MacEntry>, shelves: seq<Shelf>, max: nat, i: nat, e: MacEntry)
    requires Filing(tree, shelves, max, i, {e}) && i < |shelves|
    ensures e !in shelves[i].used
  {
    FilingOpen(tree, shelves, max, i, {e});
  }

  /** A peer has no free entry exactly when its list is full. */
  lemma {:induction false} FilingFull(tree: map<bytes, MacEntry>, shelves: seq<Shelf>, max: nat, i: nat)
    requires Filing(tree, shelves, max, -1, {}) && i < |shelves|
    ensures shelves[i].free == [] <==> |shelves[i].macs| == max
    ensures |shelves[i].used| == |shelves[i].macs|
  {
    FilingOpen(tree, shelves, max, -1, {});
  }

  lemma {:induction false} LearnNew(tree: map<bytes, MacEntry>, shelves: seq<Shelf>, max: nat, i: nat, mac: bytes)
    requires Filing(tree, shelves, max, -1, {}) && i < |shelves| && mac !in tree
    ensures Learn(TableOf(shelves), i, mac, max) == TableOf(shelves)[i := Appended(shelves[i].macs, mac, max)]
  {
    FilingOpen(tree, shelves, max, -1, {});
    var t := TableOf(shelves);
    forall k | 0 <= k < |t| ensures mac !in t[k] {
      assert forall j :: 0 <= j < |shelves[k].macs| ==> shelves[k].macs[j] in tree;
    }
    forall k | 0 <= k < |t| && k != i ensures Minus(t[k], mac) == t[k] {
      MinusNone(t[k], mac);
    }
  }

  lemma {:induction false} MinusKnown(tree: map<bytes, MacEntry>, shelves: seq<Shelf>, max: nat, h: nat, j: nat,
                                      mac: bytes, k: nat)
    requires Filing(tree, shelves, max, -1, {}) && h < |shelves| && k < |shelves|
    requires j < |shelves[h].macs| && shelves[h].macs[j] == mac
    ensures Minus(shelves[k].macs, mac) == if k == h then Without(shelves[h].macs, j) else shelves[k].macs
    ensures k != h ==> mac !in shelves[k].macs
  {
    FilingOpen(tree, shelves, max, -1, {});
    TablesDistinct(tree, shelves, max, -1, {});
    DistinctOnlyThere(shelves, h, j);
    if k == h {
      var t := TableOf(shelves);
      assert forall a, b :: 0 <= a < b < |t[h]| ==> t[h][a] != t[h][b];
      MinusAt(shelves[h].macs, j);
    } else {
      MinusNone(shelves[k].macs, mac);
    }
  }

  /** Learning an address that the peer has already. */
  lemma {:induction false} LearnOwn(tree: map<bytes, MacEntry>, shelves: seq<Shelf>, max: nat, i: nat, j: nat, mac: bytes)
    requires Filing(tree, shelves, max, -1, {}) && i < |shelves|
    requires j < |shelves[i].used| == |shelves[i].macs| && shelves[i].macs[j] == mac
    ensures Learn(TableOf(shelves), i, mac, max) == TableOf(shelves[i := Touched(shelves[i], j)])
  {
    forall k: nat | k < |shelves| ensures Minus(shelves[k].macs, mac) == if k == i then Without(shelves[i].macs, j) else shelves[k].macs {
      MinusKnown(tree, shelves, max, i, j, mac, k);
    }
  }

  /** Learning an address that another peer has: it loses it first. */
  lemma {:induction false} LearnOther(tree: map<bytes, MacEntry>, shelves: seq<Shelf>, max: nat, i: nat, h: nat, j: nat,
                                      mac: bytes)
    requires Filing(tree, shelves, max, -1, {}) && i < |shelves| && h < |shelves| && h != i
    requires j < |shelves[h].used| == |shelves[h].macs| && shelves[h].macs[j] == mac
    ensures var t := TableOf(shelves[h := Released(shelves[h], j)]);
      Learn(TableOf(shelves), i, mac, max) == t[i := Appended(t[i], mac, max)]
  {
    forall k: nat | k < |shelves|
      ensures Minus(shelves[k].macs, mac) == if k == h then Without(shelves[h].macs, j) else shelves[k].macs
    {
      MinusKnown(tree, shelves, max, h, j, mac, k);
    }
    MinusKnown(tree, shelves, max, h, j, mac, i);
  }

  /** The entries of a new peer. */
  method MakePeer(max: nat, user: nat) returns (o: MacPeer, ghost objects: set<object>)
    ensures o.user == user
    ensures fresh(o) && fresh(objects) && Owned(Shelf(o, o.free, [], []), objects)
    ensures o.used == [] && ShelfOk(Shelf(o, o.free, [], []), max, {})
  {
    o := new MacPeer(user);
    objects := {o};
    for n := 0 to max
      invariant |o.free| == n && o.used == [] && NoDuplicates(o.free) && o in objects && fresh(objects) && fresh(o)
      invariant forall j :: 0 <= j < n ==> o.free[j].peer == o && o.free[j] in objects
    {
      var entry := new MacEntry(o);
      o.free := o.free + [entry];
      objects := objects + {entry};
    }
  }

  class MacIndex {
    const maxPeerMacs: nat
    var tree: map<bytes, MacEntry>
    ghost var shelves: seq<Shelf>
    ghost var repr: set<object>

    ghost predicate Valid()
      reads this, repr
    {
      && maxPeerMacs > 0 && this !in repr
      && Filing(tree, shelves, maxPeerMacs, -1, {}) && Shelved(shelves, repr)
    }

    /** Who owns which addresses, least recently seen first. */
    ghost function Owners(): Table
      reads this
    {
      TableOf(shelves)
    }

    /** No address has two owners, and no owner too many. */
    lemma {:induction false} OwnersDistinct()
      requires Valid()
      ensures Distinct(Owners()) && Bounded(Owners(), maxPeerMacs)
    {
      FilingOpen(tree, shelves, maxPeerMacs, -1, {});
      TablesDistinct(tree, shelves, maxPeerMacs, -1, {});
    }

    constructor (maxPeerMacs: nat)
      requires maxPeerMacs > 0
      ensures Valid() && shelves == [] && repr == {} && this.maxPeerMacs == maxPeerMacs
    {
      this.maxPeerMacs := maxPeerMacs;
      tree := map[];
      shelves := [];
      repr := {};
      new;
      FilingClose(tree, shelves, maxPeerMacs, -1, {});
      ShelvedClose(shelves, repr);
    }

    /** The lookup of a destination address: its one owner, if it has one */
    method Lookup(mac: bytes) returns (peer: MacPeer?)
      requires Valid()
      ensures peer == null ==> forall i :: 0 <= i < |shelves| ==> mac !in Owners()[i]
      ensures peer != null ==> exists i :: 0 <= i < |shelves| && mac in Owners()[i] && shelves[i].peer == peer
      ensures Distinct(Owners()) && Bounded(Owners(), maxPeerMacs)
    {
      FilingOpen(tree, shelves, maxPeerMacs, -1, {});
      TablesDistinct(tree, shelves, maxPeerMacs, -1, {});
      if mac in tree {
        ghost var i, j := Locate(tree, shelves, maxPeerMacs, -1, {}, mac);
        assert mac in Owners()[i];
        peer := tree[mac].peer;
      } else {
        peer := null;
      }
    }

    /** LinkedList1_Remove and LinkedList1_Append of a used entry; the other shelves stay as they are. */
    static method MoveUsed(o: MacPeer, e: MacEntry, ghost shelves: seq<Shelf>, ghost repr: set<object>, ghost i: nat,
                           ghost j: nat)
      requires Shelved(shelves, repr) && i < |shelves| && shelves[i].peer == o
      requires j < |shelves[i].used| == |shelves[i].macs| && shelves[i].used[j] == e
      requires forall k :: 0 <= k < |shelves| && k != i ==> shelves[k].peer != o
      requires Minus(shelves[i].used, e) == Without(shelves[i].used, j)
      modifies o
      ensures Shelved(shelves[i := Touched(shelves[i], j)], repr)
    {
      ghost var s' := Touched(shelves[i], j);
      ShelvedOpen(shelves, repr);
      o.used := Minus(o.used, e);
      o.used := o.used + [e];
      assert o.used == s'.used;
      assert ShelfIs(s') && Owned(s', repr);
      ShelvedClose(shelves[i := s'], repr);
    }

    /** This peer's own address moves to the end of its list. */
    method MoveToEnd(e: MacEntry, ghost i: nat, ghost j: nat)
      requires Valid() && i < |shelves| && j < |shelves[i].used| == |shelves[i].macs| && shelves[i].used[j] == e
      requires shelves[i].peer == e.peer && e.peer in repr
      modifies e.peer, `shelves
      ensures Valid() && shelves == old(shelves)[i := Touched(old(shelves[i]), j)]
    {
      FilingTouched(tree, shelves, maxPeerMacs, i, j);
      FilingApart(tree, shelves, maxPeerMacs, -1, {}, i);
      MoveUsed(e.peer, e, shelves, repr, i, j);
      shelves := shelves[i := Touched(shelves[i], j)];
    }

    /** An address that another peer has: it is taken out of the tree and from that peer. */
    method Disassociate(e: MacEntry, ghost i: nat, ghost j: nat)
      requires Valid() && i < |shelves| && j < |shelves[i].used| == |shelves[i].macs| && shelves[i].used[j] == e
      requires shelves[i].peer == e.peer
      modifies e.peer, `shelves, `tree
      ensures Valid() && shelves == old(shelves)[i := Released(old(shelves[i]), j)]
      ensures tree == old(tree) - {old(shelves[i]).macs[j]}
    {
      ghost var s' := Released(shelves[i], j);
      ShelfAt(shelves, repr, i);
      FilingReleased(tree, shelves, maxPeerMacs, i, j, e.mac);
      FilingApart(tree, shelves, maxPeerMacs, -1, {}, i);
      ShelvedOpen(shelves, repr);
      tree := tree - {e.mac};
      e.peer.used := Minus(e.peer.used, e);
      e.peer.free := e.peer.free + [e];
      assert ShelfIs(s') && Owned(s', repr);
      shelves := shelves[i := s'];
      ShelvedClose(shelves, repr);
    }

    /** The peer's first free entry. */
    method TakeFree(o: MacPeer, ghost i: nat) returns (entry: MacEntry)
      requires Valid() && i < |shelves| && shelves[i].peer == o && shelves[i].free != []
      modifies o, `shelves
      ensures shelves == old(shelves)[i := Taken(old(shelves[i]))] && entry.peer == o && entry in repr
      ensures Filing(tree, shelves, maxPeerMacs, i, {entry}) && Shelved(shelves, repr)
    {
      ghost var s' := Taken(shelves[i]);
      FilingTaken(tree, shelves, maxPeerMacs, i);
      FilingApart(tree, shelves, maxPeerMacs, -1, {}, i);
      ShelvedOpen(shelves, repr);
      entry := o.free[0];
      o.free := Minus(o.free, entry);
      assert ShelfIs(s') && Owned(s', repr);
      shelves := shelves[i := s'];
      ShelvedClose(shelves, repr);
    }

    /** LinkedList1_Remove of a used entry; the other shelves stay as they are. */
    static method RemoveUsed(o: MacPeer, entry: MacEntry, ghost shelves: seq<Shelf>, ghost repr: set<object>,
                             ghost i: nat)
      requires Shelved(shelves, repr) && i < |shelves| && shelves[i].peer == o && 0 < |shelves[i].used|
      requires |shelves[i].used| == |shelves[i].macs| && shelves[i].used[0] == entry
      requires forall k :: 0 <= k < |shelves| && k != i ==> shelves[k].peer != o
      requires Minus(shelves[i].used, entry) == Without(shelves[i].used, 0)
      modifies o
      ensures Shelved(shelves[i := Dropped(shelves[i], 0)], repr)
    {
      ghost var s', more := Dropped(shelves[i], 0), shelves[i := Dropped(shelves[i], 0)];
      ShelvedOpen(shelves, repr);
      assert Owned(s', repr);
      o.used := Minus(o.used, entry);
      assert ShelfIs(s');
      forall k | 0 <= k < |shelves| ensures Owned(more[k], repr) && ShelfIs(more[k]) {
        if k != i {
          assert more[k] == shelves[k] && old(ShelfIs(shelves[k]));
        }
      }
      ShelvedClose(more, repr);
    }

    /** The peer's oldest used entry, which leaves the tree. */
    method Evict(o: MacPeer, ghost i: nat) returns (entry: MacEntry)
      requires Valid() && i < |shelves| && shelves[i].peer == o && 0 < |shelves[i].used| == |shelves[i].macs|
      modifies o, `shelves, `tree
      ensures shelves == old(shelves)[i := Dropped(old(shelves[i]), 0)] && entry.peer == o && entry in repr
      ensures tree == old(tree) - {old(shelves[i]).macs[0]}
      ensures Filing(tree, shelves, maxPeerMacs, i, {entry}) && Shelved(shelves, repr)
    {
      ghost var m := shelves[i].macs[0];
      ShelfAt(shelves, repr, i);
      FilingEvicted(tree, shelves, maxPeerMacs, i, m);
      FilingApart(tree, shelves, maxPeerMacs, -1, {}, i);
      entry := o.used[0];
      assert entry == shelves[i].used[0] && entry.mac == m;
      tree := tree - {entry.mac};
      RemoveUsed(o, entry, shelves, repr, i);
      shelves := shelves[i := Dropped(shelves[i], 0)];
    }

    /** The address goes into the entry, which goes into the used list and the tree. */
    method File(o: MacPeer, entry: MacEntry, mac: bytes, ghost i: nat)
      requires maxPeerMacs > 0 && this !in repr && i < |shelves| && shelves[i].peer == o && entry.peer == o
      requires Filing(tree, shelves, maxPeerMacs, i, {entry}) && Shelved(shelves, repr)
      requires entry in repr && mac !in tree
      modifies o, entry, `shelves, `tree
      ensures Valid() && shelves == old(shelves)[i := Filed(old(shelves[i]), entry, mac)]
    {
      ghost var s' := Filed(shelves[i], entry, mac);
      FilingFiled(tree, shelves, maxPeerMacs, i, entry, mac);
      FilingApart(tree, shelves, maxPeerMacs, i, {entry}, i);
      FilingHeld(tree, shelves, maxPeerMacs, i, entry);
      ShelvedOpen(shelves, repr);
      entry.mac := mac;
      o.used := o.used + [entry];
      tree := tree[mac := entry];
      assert ShelfIs(s') && Owned(s', repr);
      shelves := shelves[i := s'];
      ShelvedClose(shelves, repr);
    }

    /** The second half of add_mac_to_peer: the address is in no list. */
    method AddNew(o: MacPeer, mac: bytes, ghost i: nat)
      requires Valid() && i < |shelves| && shelves[i].peer == o && mac !in tree
      modifies repr, `shelves, `tree
      ensures Valid() && Owners() == old(Owners())[i := Appended(old(Owners())[i], mac, maxPeerMacs)]
      ensures forall k :: 0 <= k < |shelves| ==> shelves[k].peer == old(shelves[k]).peer
    {
      ShelfAt(shelves, repr, i);
      FilingApart(tree, shelves, maxPeerMacs, -1, {}, i);
      FilingFull(tree, shelves, maxPeerMacs, i);
      var entry;
      if o.free != [] {
        entry := TakeFree(o, i);
      } else {
        entry := Evict(o, i);
      }
      assert old(shelves[i]).free == [] ==> Without(old(shelves[i]).macs, 0) == old(shelves[i]).macs[1..];
      File(o, entry, mac, i);
    }

    /** add_mac_to_peer */
    method AddMacToPeer(o: MacPeer, mac: bytes, ghost i: nat)
      requires Valid() && i < |shelves| && shelves[i].peer == o
      modifies repr, `shelves, `tree
      ensures Valid() && Owners() == Learn(old(Owners()), i, mac, maxPeerMacs)
      ensures forall k :: 0 <= k < |shelves| ==> shelves[k].peer == old(shelves[k]).peer
    {
      ghost var t := Owners();
      if mac in tree {
        var e := tree[mac];
        ghost var h, j := Locate(tree, shelves, maxPeerMacs, -1, {}, mac);
        ShelfAt(shelves, repr, h);
        FilingApart(tree, shelves, maxPeerMacs, -1, {}, i);
        if e.peer == o {
          LearnOwn(tree, shelves, maxPeerMacs, i, j, mac);
          MoveToEnd(e, h, j);
          return;
        }
        LearnOther(tree, shelves, maxPeerMacs, i, h, j, mac);
        Disassociate(e, h, j);
      } else {
        LearnNew(tree, shelves, maxPeerMacs, i, mac);
      }
      AddNew(o, mac, i);
    }

    /** FrameDeciderPeer_Init: a new peer with all its entries free */
    method AddPeer(user: nat) returns (o: MacPeer)
      requires Valid()
      modifies `shelves, `repr
      ensures Valid() && fresh(repr - old(repr)) && fresh(o) && o.user == user
      ensures Owners() == old(Owners()) + [[]] && |shelves| == |old(shelves)| + 1
      ensures shelves[|old(shelves)|].peer == o && shelves[..|old(shelves)|] == old(shelves)
    {
      assert allocated(repr);
      ghost var objects;
      o, objects := MakePeer(maxPeerMacs, user);
      ghost var s := Shelf(o, o.free, [], []);
      ShelvedOpen(shelves, repr);
      FilingPeer(tree, shelves, maxPeerMacs, s, repr);
      assert ShelfIs(s) && Owned(s, repr + objects);
      shelves := shelves + [s];
      repr := repr + objects;
      ShelvedClose(shelves, repr);
    }

    /** The part of FrameDeciderPeer_Free that is about MAC addresses */
    method RemovePeer(o: MacPeer, ghost i: nat)
      requires Valid() && i < |shelves| && shelves[i].peer == o
      modifies `shelves, `tree
      ensures Valid() && shelves == Without(old(shelves), i) && Owners() == Without(old(Owners()), i)
    {
      ShelfAt(shelves, repr, i);
      ghost var macs := shelves[i].macs;
      for n := 0 to |o.used|
        invariant tree == old(tree) - SetOf(macs[..n])
        modifies `tree
      {
        tree := tree - {o.used[n].mac};
        assert macs[..n + 1] == macs[..n] + [macs[n]];
      }
      assert macs[..|macs|] == macs;
      FilingGone(old(tree), shelves, maxPeerMacs, i);
      ShelvedOpen(shelves, repr);
      shelves := Without(shelves, i);
      ShelvedClose(shelves, repr);
    }
  }

  ghost function SetOf(s: seq<bytes>): set<bytes> {
    set m | m in s
  }

  lemma {:induction false} FilingPeer(tree: map<bytes, MacEntry>, shelves: seq<Shelf>, max: nat, s: Shelf, repr: set<object>)
    requires Filing(tree, shelves, max, -1, {}) && ShelfOk(s, max, {}) && s.macs == []
    requires s.peer !in repr && forall k :: 0 <= k < |shelves| ==> shelves[k].peer in repr
    ensures Filing(tree, shelves + [s], max, -1, {})
  {
    FilingOpen(tree, shelves, max, -1, {});
    var more := shelves + [s];
    forall m <- tree ensures Located(more, m) {
      assert Located(shelves, m);
      var k :| 0 <= k < |shelves| && m in shelves[k].macs;
      assert m in more[k].macs;
    }
    FilingClose(tree, more, max, -1, {});
  }

  lemma {:induction false} TreeGone(tree: map<bytes, MacEntry>, shelves: seq<Shelf>, i: nat)
    requires TreeOk(tree, shelves) && i < |shelves|
    requires forall k :: 0 <= k < |shelves| && k != i ==> forall m <- shelves[k].macs :: m !in shelves[i].macs
    ensures TreeOk(tree - SetOf(shelves[i].macs), Without(shelves, i))
  {
    var less, tree' := Without(shelves, i), tree - SetOf(shelves[i].macs);
    forall k, l | 0 <= k < |less| && 0 <= l < |less[k].macs|
      ensures less[k].macs[l] in tree' && tree'[less[k].macs[l]] == less[k].used[l]
    {
      var k' := if k < i then k else k + 1;
      assert less[k] == shelves[k'] && shelves[k'].macs[l] in shelves[k'].macs;
    }
    forall m <- tree' ensures Located(less, m) {
      assert Located(shelves, m);
      var k :| 0 <= k < |shelves| && m in shelves[k].macs;
      assert m in less[if k < i then k else k - 1].macs;
    }
  }

  lemma {:induction false} FilingGone(tree: map<bytes, MacEntry>, shelves: seq<Shelf>, max: nat, i: nat)
    requires Filing(tree, shelves, max, -1, {}) && i < |shelves|
    ensures Filing(tree - SetOf(shelves[i].macs), Without(shelves, i), max, -1, {})
  {
    FilingOpen(tree, shelves, max, -1, {});
    TablesDistinct(tree, shelves, max, -1, {});
    var t := TableOf(shelves);
    forall k | 0 <= k < |shelves| && k != i ensures forall m <- shelves[k].macs :: m !in shelves[i].macs {
      assert forall j, l :: 0 <= j < |t[k]| && 0 <= l < |t[i]| ==> t[k][j] != t[i][l];
    }
    TreeGone(tree, shelves, i);
    FilingClose(tree - SetOf(shelves[i].macs), Without(shelves, i), max, -1, {});
  }
}
