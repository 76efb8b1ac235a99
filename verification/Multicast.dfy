/**
 The multicast tables of FrameDecider.c: for every 23-bit signature a list of the group entries that share it,
 found through one elected master, and for every peer a least-recently-used list of its groups.
 */
module Multicast {
  import opened Common

  const SIG_LIMIT: nat := 0x80_0000

  /** compute_sig_for_group, on addresses in host order */
  function Sig(group: nat): (r: nat)
    ensures r < SIG_LIMIT
  {
    group % SIG_LIMIT
  }

  /** struct _FrameDecider_group_entry; prev and next are its sig_list_node. */
  class GroupEntry {
    const peer: GroupPeer
    var group: nat
    var endTime: int
    var timerRunning: bool
    var isMaster: bool
    var prev: GroupEntry?
    var next: GroupEntry?

    constructor (peer: GroupPeer)
      ensures this.peer == peer && !timerRunning
    {
      this.peer := peer;
      group, endTime, timerRunning, isMaster, prev, next := 0, 0, false, false, null, null;
    }
  }

  /** The part of FrameDeciderPeer that is about groups. */
  class GroupPeer {
    const user: nat
    var free: seq<GroupEntry>
    var used: seq<GroupEntry>
    var groups: map<nat, GroupEntry>

    constructor (user: nat)
      ensures free == [] && used == [] && groups == map[] && this.user == user
    {
      this.user := user;
      free, used, groups := [], [], map[];
    }
  }

  // ---------- LinkedList3 ----------

  ghost predicate LinkedAt(nodes: seq<GroupEntry>, i: nat)
    requires i < |nodes|
    reads nodes`prev, nodes`next
  {
    && nodes[i].prev == (if i == 0 then null else nodes[i - 1])
    && nodes[i].next == (if i == |nodes| - 1 then null else nodes[i + 1])
  }

  /** The nodes are linked to one another in this order, and to nothing else. */
  ghost predicate Chained(nodes: seq<GroupEntry>)
    reads nodes`prev, nodes`next
  {
    forall i :: 0 <= i < |nodes| ==> LinkedAt(nodes, i)
  }

  function InsertedAfter(nodes: seq<GroupEntry>, m: nat, node: GroupEntry): (r: seq<GroupEntry>)
    requires m < |nodes|
    ensures |r| == |nodes| + 1
    ensures forall i :: 0 <= i < |r| ==> r[i] == if i <= m then nodes[i] else if i == m + 1 then node else nodes[i - 1]
  {
    nodes[..m + 1] + [node] + nodes[m + 1..]
  }

  /** LinkedList3Node_InitLonely */
  method InitLonely(node: GroupEntry)
    modifies node`prev, node`next
    ensures Chained([node])
  {
    node.prev := null;
    node.next := null;
  }

  /** LinkedList3Node_InitAfter */
  method InitAfter(node: GroupEntry, ref: GroupEntry, ghost nodes: seq<GroupEntry>, ghost m: nat)
    requires NoDuplicates(nodes) && Chained(nodes) && m < |nodes| && nodes[m] == ref && node !in nodes
    modifies node`prev, node`next, nodes`prev, nodes`next
    ensures Chained(InsertedAfter(nodes, m, node))
  {
    assert LinkedAt(nodes, m);
    ghost var r := InsertedAfter(nodes, m, node);
    node.prev := ref;
    node.next := ref.next;
    ref.next := node;
    if node.next != null {
      assert node.next == nodes[m + 1];
      node.next.prev := node;
    }
    forall i | 0 <= i < |r| ensures LinkedAt(r, i) {
      if i <= m {
        assert old(LinkedAt(nodes, i));
      } else if i > m + 1 {
        assert old(LinkedAt(nodes, i - 1));
      }
    }
  }

  /** LinkedList3Node_Free */
  method FreeNode(node: GroupEntry, ghost nodes: seq<GroupEntry>, ghost j: nat)
    requires NoDuplicates(nodes) && Chained(nodes) && j < |nodes| && nodes[j] == node
    modifies nodes`prev, nodes`next
    ensures Chained(Without(nodes, j))
  {
    assert LinkedAt(nodes, j);
    ghost var r := Without(nodes, j);
    if node.prev != null {
      assert node.prev == nodes[j - 1];
      node.prev.next := node.next;
    }
    if node.next != null {
      assert node.next == nodes[j + 1];
      node.next.prev := node.prev;
    }
    forall i | 0 <= i < |r| ensures LinkedAt(r, i) {
      assert old(LinkedAt(nodes, if i < j then i else i + 1));
    }
  }

  /** LinkedList3Node_NextOrPrev */
  method NextOrPrev(node: GroupEntry) returns (r: GroupEntry?)
    ensures r == if node.next != null then node.next else node.prev
  {
    if node.next != null {
      return node.next;
    }
    if node.prev != null {
      return node.prev;
    }
    return null;
  }

  /** LinkedList3Node_First */
  method FirstNode(node: GroupEntry, ghost nodes: seq<GroupEntry>, ghost j: nat) returns (first: GroupEntry)
    requires Chained(nodes) && j < |nodes| && nodes[j] == node
    ensures first == nodes[0]
  {
    first := node;
    ghost var k := j;
    assert LinkedAt(nodes, k);
    while first.prev != null
      invariant 0 <= k <= j && first == nodes[k] && LinkedAt(nodes, k)
      decreases k
    {
      first := first.prev;
      k := k - 1;
    }
  }

  // ---------- the index by signature ----------

  /** A list of signature s: different entries of that signature, with the master among them. */
  ghost predicate RingOk(nodes: seq<GroupEntry>, master: GroupEntry, groups: map<GroupEntry, nat>, s: nat) {
    && nodes != [] && NoDuplicates(nodes) && master in nodes
    && forall i :: 0 <= i < |nodes| ==> nodes[i] in groups && Sig(groups[nodes[i]]) == s
  }

  /** Group entries in use, with their groups, against the lists by signature and the tree of masters. */
  ghost predicate Sorted(tree: map<nat, GroupEntry>, rings: map<nat, seq<GroupEntry>>, groups: map<GroupEntry, nat>) {
    && tree.Keys == rings.Keys
    && (forall s <- rings :: RingOk(rings[s], tree[s], groups, s))
    && (forall e <- groups :: Sig(groups[e]) in rings && e in rings[Sig(groups[e])])
  }

  /** The lists after an entry with group g has been added. */
  ghost function AddedRings(tree: map<nat, GroupEntry>, rings: map<nat, seq<GroupEntry>>, e: GroupEntry, g: nat, m: nat)
    : map<nat, seq<GroupEntry>>
    requires Sig(g) in rings ==> m < |rings[Sig(g)]|
  {
    rings[Sig(g) := if Sig(g) in rings then InsertedAfter(rings[Sig(g)], m, e) else [e]]
  }

  ghost function AddedTree(tree: map<nat, GroupEntry>, e: GroupEntry, g: nat): map<nat, GroupEntry> {
    if Sig(g) in tree then tree else tree[Sig(g) := e]
  }

  /** Everything in a list stays in it when a node is put in. */
  lemma {:induction false} InsertedMembers(nodes: seq<GroupEntry>, m: nat, e: GroupEntry)
    requires m < |nodes|
    ensures forall x :: x in nodes ==> x in InsertedAfter(nodes, m, e)
    ensures e in InsertedAfter(nodes, m, e)
    ensures NoDuplicates(nodes) && e !in nodes ==> NoDuplicates(InsertedAfter(nodes, m, e))
  {
    var r := InsertedAfter(nodes, m, e);
    assert r[m + 1] == e;
    forall x | x in nodes ensures x in r {
      var k :| 0 <= k < |nodes| && nodes[k] == x;
      assert r[if k <= m then k else k + 1] == x;
    }
  }

  lemma {:induction false} RingKept(nodes: seq<GroupEntry>, master: GroupEntry, groups: map<GroupEntry, nat>, s: nat,
                                    groups': map<GroupEntry, nat>)
    requires RingOk(nodes, master, groups, s)
    requires forall i :: 0 <= i < |nodes| ==> nodes[i] in groups' && groups'[nodes[i]] == groups[nodes[i]]
    ensures RingOk(nodes, master, groups', s)
  {
  }

  lemma {:induction false} RingAdded(nodes: seq<GroupEntry>, master: GroupEntry, groups: map<GroupEntry, nat>, s: nat,
                                     e: GroupEntry, g: nat, m: nat)
    requires RingOk(nodes, master, groups, s) && e !in groups && Sig(g) == s && m < |nodes|
    ensures RingOk(InsertedAfter(nodes, m, e), master, groups[e := g], s)
  {
    InsertedMembers(nodes, m, e);
  }

  lemma {:induction false} OneRingAdded(tree: map<nat, GroupEntry>, rings: map<nat, seq<GroupEntry>>,
                                        groups: map<GroupEntry, nat>, e: GroupEntry, g: nat, m: nat, s: nat,
                                        nodes: seq<GroupEntry>, master: GroupEntry)
    requires Sorted(tree, rings, groups) && e !in groups && (Sig(g) in rings ==> m < |rings[Sig(g)]|)
    requires s in rings || s == Sig(g)
    requires nodes == AddedRings(tree, rings, e, g, m)[s] && master == AddedTree(tree, e, g)[s]
    ensures RingOk(nodes, master, groups[e := g], s)
  {
    if s in rings {
      assert RingOk(rings[s], tree[s], groups, s);
      if s == Sig(g) {
        RingAdded(rings[s], tree[s], groups, s, e, g, m);
      } else {
        RingKept(rings[s], tree[s], groups, s, groups[e := g]);
      }
    }
  }

  lemma {:induction false} OneMemberAdded(tree: map<nat, GroupEntry>, rings: map<nat, seq<GroupEntry>>,
                                          groups: map<GroupEntry, nat>, e: GroupEntry, g: nat, m: nat, x: GroupEntry)
    requires Sorted(tree, rings, groups) && (Sig(g) in rings ==> m < |rings[Sig(g)]|) && (x == e || x in groups)
    ensures var t := Sig(groups[e := g][x]);
      t in AddedRings(tree, rings, e, g, m) && x in AddedRings(tree, rings, e, g, m)[t]
  {
    if Sig(g) in rings {
      InsertedMembers(rings[Sig(g)], m, e);
    }
  }

  lemma {:induction false} SortedAdded(tree: map<nat, GroupEntry>, rings: map<nat, seq<GroupEntry>>,
                                       groups: map<GroupEntry, nat>, e: GroupEntry, g: nat, m: nat)
    requires Sorted(tree, rings, groups) && e !in groups && (Sig(g) in rings ==> m < |rings[Sig(g)]|)
    ensures Sorted(AddedTree(tree, e, g), AddedRings(tree, rings, e, g, m), groups[e := g])
  {
    var groups', tree', rings' := groups[e := g], AddedTree(tree, e, g), AddedRings(tree, rings, e, g, m);
    forall s <- rings' ensures RingOk(rings'[s], tree'[s], groups', s) {
      OneRingAdded(tree, rings, groups, e, g, m, s, rings'[s], tree'[s]);
    }
    forall x <- groups' ensures Sig(groups'[x]) in rings' && x in rings'[Sig(groups'[x])] {
      OneMemberAdded(tree, rings, groups, e, g, m, x);
    }
  }

  /** The lists after entry e, at position j of the list of its signature, has been taken out. */
  ghost function RemovedRings(rings: map<nat, seq<GroupEntry>>, s: nat, j: nat): map<nat, seq<GroupEntry>>
    requires s in rings && j < |rings[s]|
  {
    if |rings[s]| == 1 then rings - {s} else rings[s := Without(rings[s], j)]
  }

  /** The tree after that: the neighbour behind, or else the one before, is elected when the master leaves. */
  ghost function RemovedTree(tree: map<nat, GroupEntry>, rings: map<nat, seq<GroupEntry>>, s: nat, j: nat)
    : map<nat, GroupEntry>
    requires s in rings && s in tree && j < |rings[s]|
  {
    if tree[s] != rings[s][j] then tree
    else if |rings[s]| == 1 then tree - {s}
    else tree[s := if j + 1 < |rings[s]| then rings[s][j + 1] else rings[s][j - 1]]
  }

  lemma {:induction false} RingRemoved(nodes: seq<GroupEntry>, master: GroupEntry, groups: map<GroupEntry, nat>, s: nat,
                                       j: nat, master': GroupEntry)
    requires RingOk(nodes, master, groups, s) && j < |nodes| && |nodes| > 1
    requires master' == if master != nodes[j] then master else if j + 1 < |nodes| then nodes[j + 1] else nodes[j - 1]
    ensures RingOk(Without(nodes, j), master', groups - {nodes[j]}, s)
  {
    var r := Without(nodes, j);
    var k :| 0 <= k < |nodes| && nodes[k] == master';
    assert r[if k < j then k else k - 1] == master';
  }

  lemma {:induction false} OneRingRemoved(tree: map<nat, GroupEntry>, rings: map<nat, seq<GroupEntry>>,
                                          groups: map<GroupEntry, nat>, s: nat, j: nat, t: nat,
                                          nodes: seq<GroupEntry>, master: GroupEntry)
    requires Sorted(tree, rings, groups) && s in rings && j < |rings[s]| && t in RemovedRings(rings, s, j)
    requires nodes == RemovedRings(rings, s, j)[t]
    requires t in RemovedTree(tree, rings, s, j) && master == RemovedTree(tree, rings, s, j)[t]
    ensures RingOk(nodes, master, groups - {rings[s][j]}, t)
  {
    assert RingOk(rings[t], tree[t], groups, t) && RingOk(rings[s], tree[s], groups, s);
    if t != s {
      RingKept(rings[t], tree[t], groups, t, groups - {rings[s][j]});
    } else {
      RingRemoved(rings[s], tree[s], groups, s, j, master);
    }
  }

  lemma {:induction false} OneMemberRemoved(tree: map<nat, GroupEntry>, rings: map<nat, seq<GroupEntry>>,
                                            groups: map<GroupEntry, nat>, s: nat, j: nat, x: GroupEntry)
    requires Sorted(tree, rings, groups) && s in rings && j < |rings[s]| && x in groups && x != rings[s][j]
    ensures var t := Sig(groups[x]); t in RemovedRings(rings, s, j) && x in RemovedRings(rings, s, j)[t]
  {
    if Sig(groups[x]) == s {
      var k :| 0 <= k < |rings[s]| && rings[s][k] == x;
      assert Without(rings[s], j)[if k < j then k else k - 1] == x;
    }
  }

  lemma {:induction false} SortedRemoved(tree: map<nat, GroupEntry>, rings: map<nat, seq<GroupEntry>>,
                                         groups: map<GroupEntry, nat>, s: nat, j: nat, e: GroupEntry)
    requires Sorted(tree, rings, groups) && s in rings && j < |rings[s]| && rings[s][j] == e
    ensures Sorted(RemovedTree(tree, rings, s, j), RemovedRings(rings, s, j), groups - {e})
  {
    var groups', tree', rings' := groups - {e}, RemovedTree(tree, rings, s, j), RemovedRings(rings, s, j);
    assert RingOk(rings[s], tree[s], groups, s);
    forall t <- rings' ensures t in tree' && RingOk(rings'[t], tree'[t], groups', t) {
      OneRingRemoved(tree, rings, groups, s, j, t, rings'[t], tree'[t]);
    }
    forall x <- groups' ensures Sig(groups'[x]) in rings' && x in rings'[Sig(groups'[x])] {
      OneMemberRemoved(tree, rings, groups, s, j, x);
    }
  }

  /** Sorted, wrapped so that the methods carry it along by name. */
  ghost predicate Sorting(tree: map<nat, GroupEntry>, rings: map<nat, seq<GroupEntry>>, groups: map<GroupEntry, nat>,
                          w: nat := 3) {
    if w == 0 then Sorted(tree, rings, groups) else Sorting(tree, rings, groups, w - 1)
  }

  lemma {:induction false} SortingOpen(tree: map<nat, GroupEntry>, rings: map<nat, seq<GroupEntry>>,
                                       groups: map<GroupEntry, nat>, w: nat := 3)
    requires Sorting(tree, rings, groups, w)
    ensures Sorted(tree, rings, groups)
  {
    if w > 0 { SortingOpen(tree, rings, groups, w - 1); }
  }

  lemma {:induction false} SortingClose(tree: map<nat, GroupEntry>, rings: map<nat, seq<GroupEntry>>,
                                        groups: map<GroupEntry, nat>, w: nat := 3)
    requires Sorted(tree, rings, groups)
    ensures Sorting(tree, rings, groups, w)
  {
    if w > 0 { SortingClose(tree, rings, groups, w - 1); }
  }

  lemma {:induction false} SortingAdded(tree: map<nat, GroupEntry>, rings: map<nat, seq<GroupEntry>>,
                                        groups: map<GroupEntry, nat>, e: GroupEntry, g: nat, m: nat)
    requires Sorting(tree, rings, groups) && e !in groups && (Sig(g) in rings ==> m < |rings[Sig(g)]|)
    ensures Sorting(AddedTree(tree, e, g), AddedRings(tree, rings, e, g, m), groups[e := g])
  {
    SortingOpen(tree, rings, groups);
    SortedAdded(tree, rings, groups, e, g, m);
    SortingClose(AddedTree(tree, e, g), AddedRings(tree, rings, e, g, m), groups[e := g]);
  }

  lemma {:induction false} SortingRemoved(tree: map<nat, GroupEntry>, rings: map<nat, seq<GroupEntry>>,
                                          groups: map<GroupEntry, nat>, s: nat, j: nat, e: GroupEntry)
    requires Sorting(tree, rings, groups) && s in rings && s in tree && j < |rings[s]| && rings[s][j] == e
    ensures Sorting(RemovedTree(tree, rings, s, j), RemovedRings(rings, s, j), groups - {e})
  {
    SortingOpen(tree, rings, groups);
    SortedRemoved(tree, rings, groups, s, j, e);
    SortingClose(RemovedTree(tree, rings, s, j), RemovedRings(rings, s, j), groups - {e});
  }

  lemma {:induction false} SortingKeys(tree: map<nat, GroupEntry>, rings: map<nat, seq<GroupEntry>>,
                                       groups: map<GroupEntry, nat>)
    requires Sorting(tree, rings, groups)
    ensures tree.Keys == rings.Keys
  {
    SortingOpen(tree, rings, groups);
  }

  /** Where an entry in use is listed. */
  lemma {:induction false} PlaceOf(tree: map<nat, GroupEntry>, rings: map<nat, seq<GroupEntry>>,
                                   groups: map<GroupEntry, nat>, e: GroupEntry) returns (j: nat)
    requires Sorting(tree, rings, groups) && e in groups
    ensures var s := Sig(groups[e]); s in rings && s in tree && j < |rings[s]| && rings[s][j] == e
  {
    SortingOpen(tree, rings, groups);
    j :| j < |rings[Sig(groups[e])]| && rings[Sig(groups[e])][j] == e;
  }

  lemma {:induction false} MasterOf(tree: map<nat, GroupEntry>, rings: map<nat, seq<GroupEntry>>,
                                    groups: map<GroupEntry, nat>, s: nat) returns (m: nat)
    requires Sorting(tree, rings, groups) && s in tree
    ensures s in rings && m < |rings[s]| && rings[s][m] == tree[s] && NoDuplicates(rings[s])
  {
    SortingOpen(tree, rings, groups);
    assert RingOk(rings[s], tree[s], groups, s);
    m :| m < |rings[s]| && rings[s][m] == tree[s];
  }

  /** The list s shares no entry with another list, nor with entries that are not in use. */
  lemma {:induction false} RingsApart(tree: map<nat, GroupEntry>, rings: map<nat, seq<GroupEntry>>,
                                      groups: map<GroupEntry, nat>, s: nat, e: GroupEntry)
    requires Sorting(tree, rings, groups)
    requires e in groups ==> Sig(groups[e]) == s
    ensures tree.Keys == rings.Keys
    ensures forall t <- rings :: t != s ==> e !in rings[t]
    ensures forall t <- rings :: t != s && s in rings ==> forall x <- rings[t] :: x !in rings[s]
    ensures s in rings && e !in groups ==> e !in rings[s]
    ensures s in rings ==> NoDuplicates(rings[s])
  {
    SortingOpen(tree, rings, groups);
    forall t <- rings ensures forall x <- rings[t] :: x in groups && Sig(groups[x]) == t {
      assert RingOk(rings[t], tree[t], groups, t);
    }
  }

  /** The list of s is on the heap: linked in its order, and with only the master marked. */
  ghost predicate RingIs(nodes: seq<GroupEntry>, master: GroupEntry, entries: set<GroupEntry>)
    reads entries`prev, entries`next, entries`isMaster
  {
    && (forall i :: 0 <= i < |nodes| ==> nodes[i] in entries)
    && Chained(nodes)
    && (forall i :: 0 <= i < |nodes| ==> (nodes[i].isMaster <==> nodes[i] == master))
  }

  /** All lists are on the heap; wrapped like Sorting. */
  ghost predicate Rings(tree: map<nat, GroupEntry>, rings: map<nat, seq<GroupEntry>>, entries: set<GroupEntry>,
                        w: nat := 3)
    reads entries`prev, entries`next, entries`isMaster
  {
    if w == 0 then tree.Keys == rings.Keys && forall s <- rings :: RingIs(rings[s], tree[s], entries)
    else Rings(tree, rings, entries, w - 1)
  }

  lemma {:induction false} RingsOpen(tree: map<nat, GroupEntry>, rings: map<nat, seq<GroupEntry>>,
                                     entries: set<GroupEntry>, w: nat := 3)
    requires Rings(tree, rings, entries, w)
    ensures tree.Keys == rings.Keys && forall s <- rings :: RingIs(rings[s], tree[s], entries)
  {
    if w > 0 { RingsOpen(tree, rings, entries, w - 1); }
  }

  lemma {:induction false} RingsClose(tree: map<nat, GroupEntry>, rings: map<nat, seq<GroupEntry>>,
                                      entries: set<GroupEntry>, w: nat := 3)
    requires tree.Keys == rings.Keys && forall s <- rings :: RingIs(rings[s], tree[s], entries)
    ensures Rings(tree, rings, entries, w)
  {
    if w > 0 { RingsClose(tree, rings, entries, w - 1); }
  }

  /** The part of a list from x on. */
  function From(nodes: seq<GroupEntry>, x: GroupEntry): seq<GroupEntry> {
    if nodes == [] then [] else if nodes[0] == x then nodes else From(nodes[1..], x)
  }

  lemma {:induction false} FromAt(nodes: seq<GroupEntry>, k: nat)
    requires NoDuplicates(nodes) && k < |nodes|
    ensures From(nodes, nodes[k]) == nodes[k..]
  {
    if k > 0 {
      FromAt(nodes[1..], k - 1);
      assert nodes[1..][k - 1..] == nodes[k..];
    }
  }

  /** Where an iterator goes when the node at position j is freed: on to the next node, if it stands there. */
  function Jumped(nodes: seq<GroupEntry>, j: nat, it: GroupEntry): GroupEntry?
    requires j < |nodes|
  {
    if it != nodes[j] then it else if j + 1 < |nodes| then nodes[j + 1] else null
  }

  function FromOn(nodes: seq<GroupEntry>, it: GroupEntry?): seq<GroupEntry> {
    if it == null then [] else From(nodes, it)
  }

  lemma {:induction false} JumpBefore(nodes: seq<GroupEntry>, j: nat, i: nat)
    requires NoDuplicates(nodes) && i < j < |nodes|
    ensures From(Without(nodes, j), nodes[i]) == Minus(nodes[i..], nodes[j])
  {
    WithoutKeeps(nodes, j);
    assert Without(nodes, j)[i] == nodes[i];
    FromAt(Without(nodes, j), i);
    assert nodes[i..][j - i] == nodes[j];
    MinusAt(nodes[i..], j - i);
    assert Without(nodes, j)[i..] == Without(nodes[i..], j - i);
  }

  lemma {:induction false} JumpBehind(nodes: seq<GroupEntry>, j: nat, i: nat)
    requires NoDuplicates(nodes) && j < i < |nodes|
    ensures From(Without(nodes, j), nodes[i]) == nodes[i..] && nodes[j] !in nodes[i..]
  {
    WithoutKeeps(nodes, j);
    assert Without(nodes, j)[i - 1] == nodes[i];
    FromAt(Without(nodes, j), i - 1);
    assert Without(nodes, j)[i - 1..] == nodes[i..];
  }

  /** An iterator does not miss a node when another one is freed, nor visit the freed one. */
  lemma {:induction false} JumpKeeps(nodes: seq<GroupEntry>, j: nat, i: nat)
    requires NoDuplicates(nodes) && j < |nodes| && i < |nodes|
    ensures FromOn(Without(nodes, j), Jumped(nodes, j, nodes[i])) == Minus(From(nodes, nodes[i]), nodes[j])
  {
    FromAt(nodes, i);
    if i < j {
      JumpBefore(nodes, j, i);
    } else if i > j {
      JumpBehind(nodes, j, i);
      MinusNone(nodes[i..], nodes[j]);
    } else {
      assert nodes[j..][1..] == nodes[j + 1..];
      if j + 1 < |nodes| {
        JumpBehind(nodes, j, j + 1);
      }
    }
  }

  class GroupIndex {
    // the one iterator there is, of the frame decider's multicast decision; null at the end, and when there is none
    var it: GroupEntry?
    var tree: map<nat, GroupEntry>
    ghost var entries: set<GroupEntry>
    ghost var rings: map<nat, seq<GroupEntry>>
    ghost var groups: map<GroupEntry, nat>

    /** The multicast tree and its lists hold exactly the entries of `groups`. */
    ghost predicate Index()
      reads `it, `tree, `entries, `rings, `groups, entries`prev, entries`next, entries`isMaster
    {
      Sorting(tree, rings, groups) && Rings(tree, rings, entries) && (it == null || it in groups)
    }

    /** The entries that the iterator has yet to visit. */
    ghost function Rest(): seq<GroupEntry>
      reads `it, `rings, `groups
    {
      RestOf(rings, groups, it)
    }

    /** LinkedList3Node_InitAfter in the list s; the other lists stay as they are. */
    static method LinkAfter(e: GroupEntry, master: GroupEntry, ghost tree: map<nat, GroupEntry>,
                            ghost rings: map<nat, seq<GroupEntry>>, ghost entries: set<GroupEntry>, ghost s: nat,
                            ghost m: nat)
      requires Rings(tree, rings, entries) && e in entries && s in rings && s in tree && tree[s] == master
      requires m < |rings[s]| && rings[s][m] == master && NoDuplicates(rings[s])
      requires forall t <- rings :: e !in rings[t] && (t != s ==> forall x <- rings[t] :: x !in rings[s])
      modifies entries`prev, entries`next, entries`isMaster
      ensures Rings(tree, rings[s := InsertedAfter(rings[s], m, e)], entries)
    {
      ghost var nodes := rings[s];
      RingsOpen(tree, rings, entries);
      assert RingIs(nodes, master, entries);
      e.isMaster := false;
      InitAfter(e, master, nodes, m);
      ghost var rings' := rings[s := InsertedAfter(nodes, m, e)];
      forall t <- rings' ensures RingIs(rings'[t], tree[t], entries) {
        if t != s {
          assert old(RingIs(rings[t], tree[t], entries));
          assert forall x <- rings[t] :: x.prev == old(x.prev) && x.next == old(x.next);
          forall i | 0 <= i < |rings[t]| ensures LinkedAt(rings[t], i) {
            assert old(LinkedAt(rings[t], i));
          }
        } else {
          assert Chained(rings'[t]);
          forall i | 0 <= i < |rings'[t]|
            ensures rings'[t][i] in entries && (rings'[t][i].isMaster <==> rings'[t][i] == master)
          {
            if i != m + 1 {
              assert rings'[t][i] == nodes[if i <= m then i else i - 1];
            }
          }
        }
      }
      RingsClose(tree, rings', entries);
    }

    constructor ()
      ensures Index() && groups == map[] && entries == {} && it == null
    {
      it, tree, entries, rings, groups := null, map[], {}, map[], map[];
      new;
      SortingClose(tree, rings, groups);
      RingsClose(tree, rings, entries);
    }

    /** add_to_multicast: to the list of a signature that has one already */
    method JoinRing(e: GroupEntry, master: GroupEntry, ghost g: nat, ghost m: nat)
      requires Index() && e in entries && e !in groups && Sig(g) in tree && tree[Sig(g)] == master
      requires Sig(g) in rings && m < |rings[Sig(g)]| && rings[Sig(g)][m] == master
      modifies `rings, `groups, entries`prev, entries`next, entries`isMaster
      ensures Index() && groups == old(groups)[e := g] && rings == AddedRings(tree, old(rings), e, g, m)
    {
      ghost var s := Sig(g);
      RingsApart(tree, rings, groups, s, e);
      SortingAdded(tree, rings, groups, e, g, m);
      LinkAfter(e, master, tree, rings, entries, s, m);
      rings := AddedRings(tree, rings, e, g, m);
      groups := groups[e := g];
    }

    /** A list of its own for an entry whose signature has none. */
    static method LinkLonely(e: GroupEntry, ghost tree: map<nat, GroupEntry>, ghost rings: map<nat, seq<GroupEntry>>,
                             ghost entries: set<GroupEntry>, ghost s: nat)
      requires Rings(tree, rings, entries) && e in entries && s !in rings
      requires forall t <- rings :: e !in rings[t]
      modifies entries`prev, entries`next, entries`isMaster
      ensures Rings(tree[s := e], rings[s := [e]], entries)
    {
      RingsOpen(tree, rings, entries);
      e.isMaster := true;
      InitLonely(e);
      ghost var rings', tree' := rings[s := [e]], tree[s := e];
      forall t <- rings' ensures RingIs(rings'[t], tree'[t], entries) {
        if t != s {
          assert old(RingIs(rings[t], tree[t], entries));
          assert forall x <- rings[t] :: x != e;
          forall i | 0 <= i < |rings[t]| ensures LinkedAt(rings[t], i) {
            assert old(LinkedAt(rings[t], i));
          }
        }
      }
      RingsClose(tree', rings', entries);
    }

    /** add_to_multicast */
    method AddToMulticast(e: GroupEntry, group: nat)
      requires Index() && e in entries && e !in groups
      modifies `tree, `rings, `groups, entries`prev, entries`next, entries`isMaster
      ensures Index() && groups == old(groups)[e := group]
    {
      var sig := Sig(group);
      RingsApart(tree, rings, groups, sig, e);
      if sig in tree {
        var master := tree[sig];
        ghost var m := MasterOf(tree, rings, groups, sig);
        JoinRing(e, master, group, m);
      } else {
        SortingAdded(tree, rings, groups, e, group, 0);
        LinkLonely(e, tree, rings, entries, sig);
        tree := tree[sig := e];
        rings := rings[sig := [e]];
        groups := groups[e := group];
      }
    }

    /** More entries that are not in use. */
    ghost method AddEntries(added: set<GroupEntry>)
      requires Index()
      modifies `entries
      ensures Index() && entries == old(entries) + added
    {
      RingsOpen(tree, rings, entries);
      forall s <- rings ensures RingIs(rings[s], tree[s], entries + added) {
        assert RingIs(rings[s], tree[s], entries);
      }
      RingsClose(tree, rings, entries + added);
      entries := entries + added;
    }

    /** What the list of a signature holds: exactly the entries in use with that signature, each once. */
    lemma {:induction false} RingFacts(s: nat)
      requires Index() && s in tree
      ensures s in rings && |rings[s]| > 0 && NoDuplicates(rings[s])
      ensures forall i :: 0 <= i < |rings[s]| ==>
        rings[s][i] in entries && rings[s][i] in groups && Sig(groups[rings[s][i]]) == s
      ensures forall e <- groups :: Sig(groups[e]) == s ==> e in rings[s]
    {
      SortingOpen(tree, rings, groups);
      RingsOpen(tree, rings, entries);
      assert RingOk(rings[s], tree[s], groups, s) && RingIs(rings[s], tree[s], entries);
    }

    /** Without a master there is no entry with the signature. */
    lemma {:induction false} NoRing(s: nat)
      requires Index() && s !in tree
      ensures forall e <- groups :: Sig(groups[e]) != s
    {
      SortingOpen(tree, rings, groups);
    }

    /** The tree's entry for a signature is the one entry of its list that is marked as master. */
    lemma {:induction false} OneMaster(s: nat)
      requires Index() && s in tree
      ensures tree[s] in groups && Sig(groups[tree[s]]) == s && tree[s] in entries
      ensures forall e <- groups :: Sig(groups[e]) == s ==> (e.isMaster <==> e == tree[s])
    {
      RingFacts(s);
      SortingOpen(tree, rings, groups);
      RingsOpen(tree, rings, entries);
      assert RingOk(rings[s], tree[s], groups, s) && RingIs(rings[s], tree[s], entries);
    }

    /** The start of an iteration over the list of a signature. */
    method First(s: nat) returns (node: GroupEntry)
      requires Index() && s in tree
      ensures s in rings && |rings[s]| > 0 && node == rings[s][0]
    {
      RingFacts(s);
      ghost var m := MasterOf(tree, rings, groups, s);
      RingsOpen(tree, rings, entries);
      assert RingIs(rings[s], tree[s], entries);
      node := FirstNode(tree[s], rings[s], m);
    }

    /** LinkedList3Iterator_Next */
    method Next(node: GroupEntry, ghost s: nat, ghost k: nat) returns (n: GroupEntry?)
      requires Index() && s in tree && s in rings && k < |rings[s]| && node == rings[s][k]
      ensures n == if k + 1 < |rings[s]| then rings[s][k + 1] else null
    {
      RingsOpen(tree, rings, entries);
      assert RingIs(rings[s], tree[s], entries);
      assert LinkedAt(rings[s], k);
      n := node.next;
    }

    /** LinkedList3Iterator_Init at the first node of a list. */
    method Iterate(s: nat)
      requires Index() && s in tree
      modifies `it
      ensures Index() && s in rings && Rest() == rings[s]
    {
      RingFacts(s);
      var first := First(s);
      FromAt(rings[s], 0);
      it := first;
    }

    /** LinkedList3Iterator_Next on the iterator. */
    method Advance() returns (e: GroupEntry)
      requires Index() && it != null
      modifies `it
      ensures Index() && old(Rest()) == [e] + Rest() && e in groups
    {
      e := it;
      ghost var s := Sig(groups[it]);
      ghost var k := PlaceOf(tree, rings, groups, it);
      RingFacts(s);
      FromAt(rings[s], k);
      it := Next(e, s, k);
      if it != null {
        FromAt(rings[s], k + 1);
      }
    }

    /** LinkedList3Node_Free in the list s, after the election; the other lists stay as they are. */
    static method UnlinkFrom(e: GroupEntry, ghost tree: map<nat, GroupEntry>, ghost rings: map<nat, seq<GroupEntry>>,
                             ghost tree': map<nat, GroupEntry>, ghost entries: set<GroupEntry>, ghost s: nat, ghost j: nat)
      requires tree.Keys == rings.Keys && s in rings && j < |rings[s]| && rings[s][j] == e && NoDuplicates(rings[s])
      requires forall t <- rings :: t != s ==> RingIs(rings[t], tree[t], entries) && forall x <- rings[t] :: x !in rings[s]
      requires forall i :: 0 <= i < |rings[s]| ==> rings[s][i] in entries
      requires Chained(rings[s]) && tree'.Keys == RemovedRings(rings, s, j).Keys
      requires forall t <- tree' :: t != s ==> tree'[t] == tree[t]
      requires |rings[s]| > 1 ==> forall i :: 0 <= i < |rings[s]| && i != j ==>
        (rings[s][i].isMaster <==> rings[s][i] == tree'[s])
      modifies entries`prev, entries`next
      ensures Rings(tree', RemovedRings(rings, s, j), entries)
    {
      ghost var nodes, rings' := rings[s], RemovedRings(rings, s, j);
      FreeNode(e, nodes, j);
      forall t <- rings' ensures RingIs(rings'[t], tree'[t], entries) {
        if t != s {
          assert old(RingIs(rings[t], tree[t], entries));
          assert forall x <- rings[t] :: x.prev == old(x.prev) && x.next == old(x.next);
          forall i | 0 <= i < |rings[t]| ensures LinkedAt(rings[t], i) {
            assert old(LinkedAt(rings[t], i));
          }
        } else {
          assert Chained(Without(nodes, j));
          forall i | 0 <= i < |rings'[t]|
            ensures rings'[t][i] in entries && (rings'[t][i].isMaster <==> rings'[t][i] == tree'[s])
          {
            assert rings'[t][i] == nodes[if i < j then i else i + 1];
          }
        }
      }
      RingsClose(tree', rings', entries);
    }

    /** The election in remove_from_multicast: a neighbour becomes the master, if there is one. */
    method Elect(e: GroupEntry, sig: nat, ghost j: nat)
      requires sig in rings && sig in tree && j < |rings[sig]| && rings[sig][j] == e && tree[sig] == e
      requires RingIs(rings[sig], e, entries) && NoDuplicates(rings[sig]) && tree.Keys == rings.Keys
      requires forall t <- rings :: t != sig ==> RingIs(rings[t], tree[t], entries) && forall x <- rings[t] :: x !in rings[sig]
      modifies `tree, entries`isMaster
      ensures tree == RemovedTree(old(tree), rings, sig, j)
      ensures forall x <- entries :: x.isMaster == (old(x.isMaster) || (|rings[sig]| > 1 && x == tree[sig]))
      ensures forall t <- rings :: t != sig ==> t in tree && RingIs(rings[t], tree[t], entries)
    {
      assert LinkedAt(rings[sig], j);
      var lonely := e.prev == null && e.next == null;
      tree := tree - {sig};
      if !lonely {
        var newmaster := NextOrPrev(e);
        assert newmaster == if j + 1 < |rings[sig]| then rings[sig][j + 1] else rings[sig][j - 1];
        newmaster.isMaster := true;
        tree := tree[sig := newmaster];
        assert tree == old(tree)[sig := newmaster];
        forall t <- rings | t != sig ensures RingIs(rings[t], tree[t], entries) {
          assert old(RingIs(rings[t], tree[t], entries));
          assert newmaster in rings[sig] && newmaster !in rings[t];
        }
      }
    }

    /** LinkedList3Node_Free: the iterator moves on, and the node is taken out. */
    method FreeEntry(e: GroupEntry, ghost tree0: map<nat, GroupEntry>, ghost s: nat, ghost j: nat)
      requires tree0.Keys == rings.Keys && s in rings && j < |rings[s]| && rings[s][j] == e && NoDuplicates(rings[s])
      requires forall t <- rings :: t != s ==> RingIs(rings[t], tree0[t], entries) && forall x <- rings[t] :: x !in rings[s]
      requires forall i :: 0 <= i < |rings[s]| ==> rings[s][i] in entries
      requires Chained(rings[s]) && tree.Keys == RemovedRings(rings, s, j).Keys
      requires forall t <- tree :: t != s ==> tree[t] == tree0[t]
      requires |rings[s]| > 1 ==> forall i :: 0 <= i < |rings[s]| && i != j ==>
        (rings[s][i].isMaster <==> rings[s][i] == tree[s])
      modifies `it, entries`prev, entries`next
      ensures Rings(tree, RemovedRings(rings, s, j), entries)
      ensures it == if old(it) == null then null else Jumped(rings[s], j, old(it))
    {
      assert LinkedAt(rings[s], j);
      if it == e {
        it := e.next;
      }
      UnlinkFrom(e, tree0, rings, tree, entries, s, j);
    }

    /** remove_from_multicast, but for the iterator's view */
    method Unlist(e: GroupEntry, sig: nat, ghost j: nat)
      requires Index() && e in groups && Sig(groups[e]) == sig && sig in rings && j < |rings[sig]| && rings[sig][j] == e
      modifies `it, `tree, `rings, `groups, entries`prev, entries`next, entries`isMaster
      ensures groups == old(groups) - {e} && rings == RemovedRings(old(rings), sig, j)
      ensures Sorting(tree, rings, groups) && Rings(tree, rings, entries)
      ensures it == if old(it) == null then null else Jumped(old(rings)[sig], j, old(it))
    {
      ghost var tree0 := tree;
      RemovalFacts(tree, rings, groups, entries, e, sig, j);
      if e.isMaster {
        Elect(e, sig, j);
      }
      FreeEntry(e, tree0, sig, j);
      rings := RemovedRings(rings, sig, j);
      groups := groups - {e};
    }

    /** remove_from_multicast */
    method RemoveFromMulticast(e: GroupEntry, group: nat)
      requires Index() && e in groups && groups[e] == group
      modifies `it, `tree, `rings, `groups, entries`prev, entries`next, entries`isMaster
      ensures Index() && groups == old(groups) - {e} && Rest() == Minus(old(Rest()), e)
    {
      ghost var j := PlaceOf(tree, rings, groups, e);
      RestAfter(tree, rings, groups, e, j, it);
      Unlist(e, Sig(group), j);
    }
  }

  /** What the removal of an entry rests on. */
  lemma {:induction false} RemovalFacts(tree: map<nat, GroupEntry>, rings: map<nat, seq<GroupEntry>>,
                                        groups: map<GroupEntry, nat>, entries: set<GroupEntry>, e: GroupEntry,
                                        s: nat, j: nat)
    requires Sorting(tree, rings, groups) && Rings(tree, rings, entries)
    requires e in groups && Sig(groups[e]) == s && s in rings && j < |rings[s]| && rings[s][j] == e
    ensures tree.Keys == rings.Keys && NoDuplicates(rings[s]) && RingIs(rings[s], tree[s], entries)
    ensures forall t <- rings :: t != s ==> RingIs(rings[t], tree[t], entries) && forall x <- rings[t] :: x !in rings[s]
    ensures RemovedTree(tree, rings, s, j).Keys == RemovedRings(rings, s, j).Keys
    ensures Sorting(RemovedTree(tree, rings, s, j), RemovedRings(rings, s, j), groups - {e})
  {
    RingsApart(tree, rings, groups, s, e);
    SortingRemoved(tree, rings, groups, s, j, e);
    RingsOpen(tree, rings, entries);
    SortingKeys(RemovedTree(tree, rings, s, j), RemovedRings(rings, s, j), groups - {e});
  }

  ghost function RestOf(rings: map<nat, seq<GroupEntry>>, groups: map<GroupEntry, nat>, it: GroupEntry?): seq<GroupEntry> {
    if it == null || it !in groups || Sig(groups[it]) !in rings then [] else From(rings[Sig(groups[it])], it)
  }

  lemma {:induction false} RestAfterOther(rings: map<nat, seq<GroupEntry>>, groups: map<GroupEntry, nat>,
                                          e: GroupEntry, s: nat, j: nat, it: GroupEntry, i: nat)
    requires s in rings && j < |rings[s]| && it in groups && it != e
    requires var t := Sig(groups[it]);
      t != s && t in rings && i < |rings[t]| && rings[t][i] == it && NoDuplicates(rings[t]) && e !in rings[t]
    ensures RestOf(RemovedRings(rings, s, j), groups - {e}, it) == Minus(RestOf(rings, groups, it), e)
  {
    var t := Sig(groups[it]);
    assert RemovedRings(rings, s, j)[t] == rings[t];
    FromAt(rings[t], i);
    MinusNone(rings[t][i..], e);
  }

  lemma {:induction false} RestAfterSame(rings: map<nat, seq<GroupEntry>>, groups: map<GroupEntry, nat>,
                                         e: GroupEntry, s: nat, j: nat, it: GroupEntry, i: nat)
    requires s in rings && RingOk(rings[s], e, groups, s) && j < |rings[s]| && rings[s][j] == e
    requires i < |rings[s]| && rings[s][i] == it
    ensures var it' := Jumped(rings[s], j, it);
      && (it' == null || it' in groups - {e})
      && RestOf(RemovedRings(rings, s, j), groups - {e}, it') == Minus(RestOf(rings, groups, it), e)
  {
    var nodes := rings[s];
    JumpKeeps(nodes, j, i);
    assert it in groups && Sig(groups[it]) == s;
    if it == e && j + 1 < |nodes| {
      assert nodes[j + 1] in groups && Sig(groups[nodes[j + 1]]) == s;
    }
    if |nodes| == 1 {
      assert Minus(nodes, e) == [];
    }
  }

  /** What the iterator has yet to visit once an entry has left. */
  lemma {:induction false} RestAfter(tree: map<nat, GroupEntry>, rings: map<nat, seq<GroupEntry>>,
                                     groups: map<GroupEntry, nat>, e: GroupEntry, j: nat, it: GroupEntry?)
    requires Sorting(tree, rings, groups) && e in groups && Sig(groups[e]) in rings && (it == null || it in groups)
    requires j < |rings[Sig(groups[e])]| && rings[Sig(groups[e])][j] == e
    ensures var it' := if it == null then null else Jumped(rings[Sig(groups[e])], j, it);
      && (it' == null || it' in groups - {e})
      && RestOf(RemovedRings(rings, Sig(groups[e]), j), groups - {e}, it') == Minus(RestOf(rings, groups, it), e)
  {
    if it != null {
      var s, t := Sig(groups[e]), Sig(groups[it]);
      var i := PlaceOf(tree, rings, groups, it);
      RingsOkAt(tree, rings, groups, t, e);
      if t == s {
        RestAfterSame(rings, groups, e, s, j, it, i);
      } else {
        RestAfterOther(rings, groups, e, s, j, it, i);
      }
    }
  }

  lemma {:induction false} RingsOkAt(tree: map<nat, GroupEntry>, rings: map<nat, seq<GroupEntry>>,
                                     groups: map<GroupEntry, nat>, t: nat, e: GroupEntry)
    requires Sorting(tree, rings, groups) && t in rings && e in groups
    ensures NoDuplicates(rings[t])
    ensures if Sig(groups[e]) == t then RingOk(rings[t], e, groups, t) else e !in rings[t]
  {
    SortingOpen(tree, rings, groups);
    assert RingOk(rings[t], tree[t], groups, t);
  }
}
