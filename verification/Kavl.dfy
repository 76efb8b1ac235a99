/** `kavl.h`: the intrusive order-statistic AVL tree, on a heap of nodes. */
module Kavl {
  import opened Bytes
  import opened KavlTree

  /** The length of the C code's path and direction arrays. */
  const MAX_DEPTH := 64
  const UINT_MAX := 0xFFFF_FFFF

  // ----- the heap agrees with a tree

  ghost predicate Shape(t: Tree)
    reads Nodes(t)
  {
    t.Bin? ==>
      && t.node.p0 == Root(t.left) && t.node.p1 == Root(t.right)
      && t.node.balance == t.bal && t.node.size == t.size
      && Shape(t.left) && Shape(t.right)
  }

  /** The heap agrees with a tree that has a hole, at which it points to `hole`. */
  ghost predicate ShapeCtx(c: Ctx, hole: Node?)
    reads CtxNodes(c)
  {
    c.Down? ==>
      && c.node.P(c.dir) == hole && c.node.P(1 - c.dir) == Root(c.other)
      && c.node.balance == c.bal && c.node.size == c.size
      && Shape(c.other) && ShapeCtx(c.up, c.node)
  }

  ghost predicate At(c: Ctx, t: Tree)
    reads CtxNodes(c), Nodes(t)
  {
    && DistinctCtx(c) && Distinct(t) && CtxNodes(c) !! Nodes(t)
    && Shape(t) && ShapeCtx(c, Root(t))
  }

  lemma {:induction false} Refocus(c: Ctx, t: Tree)
    ensures At(c, t) <==> At(Top, Plug(c, t))
  {
    if c.Down? {
      Refocus(c.up, Make(c.dir, t, c.node, c.bal, c.size, c.other));
    }
  }

  /** What the outermost frame of a hanging path is, or the hole itself. */
  ghost function Entry(c: Ctx, hole: Node?): Node? {
    if c.Top? then hole else Entry(c.up, c.node)
  }

  lemma {:induction false} ShapeCompose(a: Ctx, b: Ctx, hole: Node?)
    ensures ShapeCtx(Compose(a, b), hole) <==> ShapeCtx(b, hole) && ShapeCtx(a, Entry(b, hole))
  {
    if b.Down? {
      ShapeCompose(a, b.up, b.node);
    }
  }

  /** The nodes hanging off a path. */
  ghost function SideNodes(c: Ctx): set<Node> {
    if c.Top? then {} else SideNodes(c.up) + Nodes(c.other)
  }

  /** ShapeCtx without the size and balance fields of the path itself. */
  ghost predicate Linked(c: Ctx, hole: Node?)
    reads Spine(c)`p0, Spine(c)`p1, SideNodes(c)
  {
    c.Down? ==>
      && c.node.P(c.dir) == hole && c.node.P(1 - c.dir) == Root(c.other)
      && Shape(c.other) && Linked(c.up, c.node)
  }

  lemma {:induction false} Unzip(c: Ctx, hole: Node?)
    requires ShapeCtx(c, hole)
    ensures Linked(c, hole)
    ensures forall j :: 0 <= j < Depth(c) ==> PathNodes(c)[j].size == PathSizes(c)[j]
    ensures forall j :: 0 <= j < Depth(c) ==> PathNodes(c)[j].balance == PathBals(c)[j]
  {
    if c.Down? {
      Unzip(c.up, c.node);
    }
  }

  /** The child pointer to follow from the node at depth k. */
  lemma {:induction false} LinkAt(c: Ctx, hole: Node?, k: nat)
    requires Linked(c, hole) && k < Depth(c)
    ensures PathNodes(c)[k].P(PathDirs(c)[k]) == (if k + 1 < Depth(c) then PathNodes(c)[k + 1] else hole)
  {
    var n, d := PathNodes(c), PathDirs(c);
    assert n == PathNodes(c.up) + [c.node] && d == PathDirs(c.up) + [c.dir];
    if k < Depth(c.up) {
      LinkAt(c.up, c.node, k);
    }
  }

  lemma {:induction false} Zip(c: Ctx, hole: Node?)
    requires Linked(c, hole)
    requires forall j :: 0 <= j < Depth(c) ==> PathNodes(c)[j].size == PathSizes(c)[j]
    requires forall j :: 0 <= j < Depth(c) ==> PathNodes(c)[j].balance == PathBals(c)[j]
    ensures ShapeCtx(c, hole)
  {
    if c.Down? {
      var n, z, b, k := PathNodes(c), PathSizes(c), PathBals(c), Depth(c.up);
      assert n[k] == c.node && z[k] == c.size && b[k] == c.bal;
      forall j | 0 <= j < k
        ensures PathNodes(c.up)[j].size == PathSizes(c.up)[j] && PathNodes(c.up)[j].balance == PathBals(c.up)[j]
      {
        assert n[j] == PathNodes(c.up)[j] && z[j] == PathSizes(c.up)[j] && b[j] == PathBals(c.up)[j];
      }
      Zip(c.up, c.node);
    }
  }

  lemma {:induction false} SameLinks(c: Ctx, delta: int, hole: Node?)
    ensures Linked(Resize(c, delta), hole) == Linked(c, hole) == Linked(Tilt(c), hole)
  {
    if c.Down? {
      SameLinks(c.up, delta, c.node);
    }
  }

  lemma {:induction false} SidesApart(c: Ctx)
    requires DistinctCtx(c)
    ensures SideNodes(c) !! Spine(c)
    ensures SideNodes(c) <= CtxNodes(c)
  {
    if c.Down? {
      SidesApart(c.up);
      CtxFacts(c.up);
    }
  }

  /** Adds `delta` to the sizes of the nodes path[lo..hi]. */
  method ChangeSizes(path: array<Node?>, lo: nat, hi: nat, delta: int, ghost c: Ctx, ghost hole: Node?)
    requires lo <= hi <= path.Length && hi - lo == Depth(c)
    requires forall k :: lo <= k < hi ==> path[k] == PathNodes(c)[k - lo]
    requires DistinctCtx(c) && ShapeCtx(c, hole)
    modifies Spine(c)`size
    ensures ShapeCtx(Resize(c, delta), hole)
  {
    ghost var nodes, sizes, bals := PathNodes(c), PathSizes(c), PathBals(c);
    CtxFacts(c);
    SidesApart(c);
    Unzip(c, hole);
    var i := lo;
    while i < hi
      invariant lo <= i <= hi
      invariant Linked(c, hole)
      invariant forall j :: 0 <= j < |nodes| ==> nodes[j].size == sizes[j] + (if j < i - lo then delta else 0)
      invariant forall j :: 0 <= j < |nodes| ==> nodes[j].balance == bals[j]
    {
      path[i].size := path[i].size + delta;
      i := i + 1;
    }
    ResizePath(c, delta);
    SameLinks(c, delta, hole);
    Zip(Resize(c, delta), hole);
  }

  ghost predicate SizesStand(c: Ctx)
    reads PathNodes(c)`size
  {
    forall j :: 0 <= j < Depth(c) ==> PathNodes(c)[j].size == PathSizes(c)[j]
  }

  /** The first `top` balance bytes along c have been tilted. */
  ghost predicate PartlyTilted(c: Ctx, top: nat)
    reads PathNodes(c)`balance
  {
    forall j :: 0 <= j < Depth(c) ==>
      PathNodes(c)[j].balance == PathBals(c)[j] - (if j < top then Lean(PathDirs(c)[j]) else 0)
  }

  /** One round of the loop over the balance bytes. */
  method TiltNode(p: Node, which: Side, ghost c: Ctx, ghost top: nat)
    requires DistinctCtx(c) && top < Depth(c) && p == PathNodes(c)[top] && which == PathDirs(c)[top]
    requires PartlyTilted(c, top)
    modifies p`balance
    ensures PartlyTilted(c, top + 1)
  {
    CtxFacts(c);
    if which == 0 {
      p.balance := p.balance - 1;
    } else {
      p.balance := p.balance + 1;
    }
  }

  /** It leaves links and sizes alone. */
  method TiltOnly(p: Node, which: Side, ghost c: Ctx, ghost hole: Node?, ghost top: nat)
    requires DistinctCtx(c) && top < Depth(c) && p == PathNodes(c)[top] && which == PathDirs(c)[top]
    requires Linked(c, hole) && SizesStand(c) && PartlyTilted(c, top)
    modifies p`balance
    ensures Linked(c, hole) && SizesStand(c) && PartlyTilted(c, top + 1)
  {
    assert p !in SideNodes(c) by {
      CtxFacts(c);
      SidesApart(c);
    }
    assert allocated(SideNodes(c)) && allocated(Spine(c)) && allocated(PathNodes(c));
    TiltNode(p, which, c, top);
  }

  lemma {:induction false} AllTilted(c: Ctx, hole: Node?)
    requires Linked(c, hole) && SizesStand(c) && PartlyTilted(c, Depth(c))
    ensures ShapeCtx(Tilt(c), hole)
  {
    KavlTree.TiltPath(c);
    SameLinks(c, 0, hole);
    Zip(Tilt(c), hole);
  }

  lemma {:induction false} NoneTilted(c: Ctx, hole: Node?)
    requires ShapeCtx(c, hole)
    ensures Linked(c, hole) && SizesStand(c) && PartlyTilted(c, 0)
  {
    Unzip(c, hole);
  }

  /** Tilts the balance bytes from p = bp down to the new leaf x. */
  method ChangeBalances(bp: Node, x: Node, stack: array<Side>, ghost c: Ctx)
    requires c.Down? && bp == Outermost(c).node
    requires Depth(c) <= stack.Length
    requires forall k :: 0 <= k < Depth(c) ==> stack[k] == PathDirs(c)[k]
    requires DistinctCtx(c) && x !in Spine(c) && ShapeCtx(c, x)
    modifies Spine(c)`balance
    ensures ShapeCtx(Tilt(c), x)
  {
    CtxFacts(c);
    NoneTilted(c, x);
    OutermostFirst(c);
    var p, top := bp, 0;
    while p != x
      invariant 0 <= top <= Depth(c)
      invariant p == if top < Depth(c) then PathNodes(c)[top] else x
      invariant Linked(c, x) && SizesStand(c) && PartlyTilted(c, top)
      decreases Depth(c) - top
    {
      LinkAt(c, x, top);
      TiltOnly(p, stack[top], c, x, top);
      p := p.P(stack[top]);
      top := top + 1;
    }
    AllTilted(c, x);
  }

  method Rotate1(p: Node, dir: Side, ghost t: Tree) returns (q: Node)
    requires t.Bin? && Kid(t, 1 - dir).Bin? && p == t.node
    requires Distinct(t) && Shape(t)
    modifies p, Kid(t, 1 - dir).node
    ensures Shape(Rotated1(t, dir)) && q == Root(Rotated1(t, dir))
  {
    var opp: Side := 1 - dir;
    q := p.P(opp);
    SingleParts(t, dir);
    ghost var a, b, e := Kid(t, dir), Kid(Kid(t, opp), dir), Kid(Kid(t, opp), opp);
    assert Shape(a) && Shape(Kid(t, opp)) && Shape(b) && Shape(e);
    var sizeP := p.size;
    p.size := p.size - (q.size - (if q.P(dir) != null then q.P(dir).size else 0));
    q.size := sizeP;
    if dir == 0 {
      p.p1 := q.p0; q.p0 := p;
    } else {
      p.p0 := q.p1; q.p1 := p;
    }
    assert Shape(a) && Shape(b) && Shape(e);
  }

  /** The writes of the double rotation, field by field. */
  method Rotate2Fields(p: Node, q: Node, r: Node, dir: Side)
    requires p != q && q != r && r != p
    requires p.P(1 - dir) == q && q.P(dir) == r
    requires r.P(dir) !in {p, q, r}
    modifies p, q, r
    ensures r.size == old(p.size)
    ensures var sizeX := if old(r.P(dir)) != null then old(r.P(dir)).size else 0;
            p.size == old(p.size) - (old(q.size) - sizeX) && q.size == old(q.size) - (sizeX + 1)
    ensures p.P(1 - dir) == old(r.P(dir)) && p.P(dir) == old(p.P(dir))
    ensures q.P(dir) == old(r.P(1 - dir)) && q.P(1 - dir) == old(q.P(1 - dir))
    ensures r.P(dir) == p && r.P(1 - dir) == q && r.balance == 0
    ensures p.balance == (if old(r.balance) == Lean(dir) then -Lean(dir) else 0)
    ensures q.balance == (if old(r.balance) == Lean(dir) || old(r.balance) == 0 then 0 else Lean(dir))
  {
    var sizeXDir := if r.P(dir) != null then r.P(dir).size else 0;
    r.size := p.size;
    p.size := p.size - (q.size - sizeXDir);
    q.size := q.size - (sizeXDir + 1);
    if dir == 0 {
      p.p1 := r.p0; r.p0 := p; q.p0 := r.p1; r.p1 := q;
    } else {
      p.p0 := r.p1; r.p1 := p; q.p1 := r.p0; r.p0 := q;
    }
    var b1 := if dir == 0 then 1 else -1;
    if r.balance == b1 {
      q.balance, p.balance := 0, -b1;
    } else if r.balance == 0 {
      q.balance, p.balance := 0, 0;
    } else {
      q.balance, p.balance := b1, 0;
    }
    r.balance := 0;
  }

  method Rotate2(p: Node, dir: Side, ghost t: Tree) returns (r: Node)
    requires t.Bin? && Kid(t, 1 - dir).Bin? && Kid(Kid(t, 1 - dir), dir).Bin? && p == t.node
    requires Distinct(t) && Shape(t)
    modifies p, Kid(t, 1 - dir).node, Kid(Kid(t, 1 - dir), dir).node
    ensures Shape(Rotated2(t, dir)) && r == Root(Rotated2(t, dir))
  {
    var opp: Side := 1 - dir;
    var q := p.P(opp);
    ghost var tq := Kid(t, opp);
    ghost var tr := Kid(tq, dir);
    ghost var a, b, e, f := Kid(t, dir), Kid(tr, dir), Kid(tr, opp), Kid(tq, opp);
    DoubleParts(t, dir);
    assert Shape(tq) && Shape(tr) && Shape(a) && Shape(b) && Shape(e) && Shape(f);
    assert allocated(Nodes(a)) && allocated(Nodes(b)) && allocated(Nodes(e)) && allocated(Nodes(f));
    r := q.P(dir);
    Rotate2Fields(p, q, r, dir);
    assert Shape(a) && Shape(b) && Shape(e) && Shape(f);
    ghost var u := Rotated2(t, dir);
    assert Shape(Kid(u, dir));
    assert Shape(Kid(u, opp));
  }

  // ----- searching

  ghost predicate NarrowedNow(tree: Tree, c: Ctx, t: Tree, k: bytes, cnt: int) {
    && tree == Plug(c, t) && Sized(t) && Increasing(Inorder(tree))
    && AllBelow(Before(c), k) && AllAbove(After(c), k)
    && cnt == |Before(c)|
  }

  /**
   A search for k has come down to subtree t, with cnt nodes known to be below k. Wrapped so that the methods carry it
   along by name.
   */
  ghost predicate Narrowed(tree: Tree, c: Ctx, t: Tree, k: bytes, cnt: int, w: nat := 3) {
    if w == 0 then NarrowedNow(tree, c, t, k, cnt) else Narrowed(tree, c, t, k, cnt, w - 1)
  }

  lemma {:induction false} NarrowedOpen(tree: Tree, c: Ctx, t: Tree, k: bytes, cnt: int, w: nat := 3)
    requires Narrowed(tree, c, t, k, cnt, w)
    ensures NarrowedNow(tree, c, t, k, cnt)
  {
    if w > 0 { NarrowedOpen(tree, c, t, k, cnt, w - 1); }
  }

  lemma {:induction false} NarrowedClose(tree: Tree, c: Ctx, t: Tree, k: bytes, cnt: int, w: nat := 3)
    requires NarrowedNow(tree, c, t, k, cnt)
    ensures Narrowed(tree, c, t, k, cnt, w)
  {
    if w > 0 { NarrowedClose(tree, c, t, k, cnt, w - 1); }
  }

  lemma {:induction false} StartSearch(tree: Tree, k: bytes)
    requires KavlTree.Valid(tree)
    ensures Narrowed(tree, Top, tree, k, 0)
  {
    NarrowedClose(tree, Top, tree, k, 0);
  }

  lemma {:induction false} EndSearch(tree: Tree, c: Ctx, k: bytes, cnt: int)
    requires Narrowed(tree, c, Nil, k, cnt)
    ensures SlotFor(tree, c, k)
    ensures forall n <- Nodes(tree) :: n.key != k
    ensures NumAtMost(Inorder(tree), k) == cnt
  {
    NarrowedOpen(tree, c, Nil, k, cnt);
    SlotIsFree(tree, c, k);
  }

  ghost function Step(c: Ctx, t: Tree, d: Side): Ctx
    requires t.Bin?
  {
    Down(c, d, t.node, t.bal, t.size, Kid(t, 1 - d))
  }

  lemma {:induction false} StepNarrows(tree: Tree, c: Ctx, t: Tree, k: bytes, cnt: int)
    requires t.Bin? && NarrowedNow(tree, c, t, k, cnt)
    ensures Scmp(k, t.node.key) > 0 ==> NarrowedNow(tree, Step(c, t, 1), t.right, k, cnt + SizeOf(t.left) + 1)
    ensures Scmp(k, t.node.key) < 0 ==> NarrowedNow(tree, Step(c, t, 0), t.left, k, cnt)
    ensures Scmp(k, t.node.key) == 0 ==>
              && NumAtMost(Inorder(tree), k) == cnt + SizeOf(t.left) + 1
              && t.node in Nodes(tree) && t.node.key == k
  {
    PlugOrder(c, t);
    PlugNodes(c, t);
    InorderLength(t.left);
    SizeIsCount(t.left);
    ScmpAntisymmetric(k, t.node.key);
    Regroup5(Before(c), Inorder(t.left), t.node, Inorder(t.right), After(c));
    CompareMiddle(Before(c) + Inorder(t.left), t.node, Inorder(t.right) + After(c), k);
  }

  lemma {:induction false} StepSearch(tree: Tree, c: Ctx, t: Tree, k: bytes, cnt: int)
    requires t.Bin? && Narrowed(tree, c, t, k, cnt)
    ensures Scmp(k, t.node.key) > 0 ==> Narrowed(tree, Step(c, t, 1), t.right, k, cnt + SizeOf(t.left) + 1)
    ensures Scmp(k, t.node.key) < 0 ==> Narrowed(tree, Step(c, t, 0), t.left, k, cnt)
    ensures Scmp(k, t.node.key) == 0 ==>
              && NumAtMost(Inorder(tree), k) == cnt + SizeOf(t.left) + 1
              && t.node in Nodes(tree) && t.node.key == k
  {
    NarrowedOpen(tree, c, t, k, cnt);
    StepNarrows(tree, c, t, k, cnt);
    if Scmp(k, t.node.key) > 0 {
      NarrowedClose(tree, Step(c, t, 1), t.right, k, cnt + SizeOf(t.left) + 1);
    } else if Scmp(k, t.node.key) < 0 {
      NarrowedClose(tree, Step(c, t, 0), t.left, k, cnt);
    }
  }

  /** A key between two parts of the order is in neither. */
  lemma {:induction false} SlotIsFree(t: Tree, c: Ctx, k: bytes)
    requires SlotFor(t, c, k)
    ensures forall n <- Nodes(t) :: n.key != k
    ensures NumAtMost(Inorder(t), k) == |Before(c)|
  {
    PlugOrder(c, Nil);
    InorderFacts(t);
    assert Inorder(t) == Before(c) + After(c);
    KeyAbsent(Before(c), After(c), k);
  }

  /** kavl_find */
  method FindFrom(root: Node?, key: bytes, ghost tree: Tree) returns (p: Node?, cnt: int)
    requires root == Root(tree) && Shape(tree) && KavlTree.Valid(tree)
    ensures p != null ==> p in Nodes(tree) && p.key == key
    ensures p == null ==> forall n <- Nodes(tree) :: n.key != key
    ensures cnt == NumAtMost(Inorder(tree), key)
  {
    StartSearch(tree, key);
    p, cnt := root, 0;
    ghost var c, t := Top, tree;
    while p != null
      invariant p == Root(t) && Shape(t)
      invariant Narrowed(tree, c, t, key, cnt)
      decreases t
    {
      var cmp := Scmp(key, p.key);
      StepSearch(tree, c, t, key, cnt);
      if cmp >= 0 {
        cnt := cnt + (if p.p0 != null then p.p0.size else 0) + 1;
      }
      if cmp < 0 {
        c, t := Step(c, t, 0), t.left;
        p := p.p0;
      } else if cmp > 0 {
        c, t := Step(c, t, 1), t.right;
        p := p.p1;
      } else {
        break;
      }
    }
    if p == null {
      EndSearch(tree, c, key, cnt);
    }
  }

  // ----- insertion

  ghost function Innermost(c: Ctx): Node? {
    if c.Top? then null else c.node
  }

  /** The arrays hold the nodes of c and the directions of its lower part. */
  ghost predicate Recorded(path: array<Node?>, stack: array<Side>, c: Ctx, seg: Ctx)
    reads path, stack
  {
    && Depth(c) <= path.Length && Depth(seg) <= stack.Length
    && (forall k :: 0 <= k < Depth(c) ==> path[k] == PathNodes(c)[k])
    && (forall k :: 0 <= k < Depth(seg) ==> stack[k] == PathDirs(seg)[k])
  }

  /** One more node and direction on the search path. */
  method Record(path: array<Node?>, stack: array<Side>, pathLen: nat, top: nat, p: Node, which: Side,
                ghost c: Ctx, ghost seg: Ctx, ghost t: Tree)
    requires Recorded(path, stack, c, seg) && pathLen == Depth(c) < path.Length && top == Depth(seg) < stack.Length
    requires t.Bin? && t.node == p && Shape(t)
    modifies path, stack
    ensures Recorded(path, stack, Step(c, t, which), Step(seg, t, which))
    ensures Shape(t)
  {
    ghost var own: set<object> := Nodes(t);
    assert stack !in own && path !in own;
    stack[top] := which;
    path[pathLen] := p;
  }

  lemma {:induction false} NothingRecorded(path: array<Node?>, stack: array<Side>)
    ensures Recorded(path, stack, Top, Top) && DeepestUneven(Top, Top) && Compose(Top, Top) == Top
  {
  }

  lemma {:induction false} ForgetSegment(path: array<Node?>, stack: array<Side>, c: Ctx, seg: Ctx)
    requires Recorded(path, stack, c, seg)
    ensures Recorded(path, stack, c, Top)
  {
  }

  /** The search has come down to t along c, whose lower part seg starts at the last uneven node. */
  ghost predicate Segmented(c: Ctx, t: Tree, bc: Ctx, seg: Ctx) {
    && c == Compose(bc, seg) && DeepestUneven(bc, seg) && (seg.Top? ==> c.Top?)
    && Depth(seg) <= Depth(c) && Depth(c) + Height(t) <= 45
  }

  /** bp and bq are the node at which seg starts and its parent, q and which the innermost frame. */
  ghost predicate Pointers(root: Node?, bp: Node?, bq: Node?, q: Node?, which: Side, bc: Ctx, seg: Ctx) {
    && q == Innermost(seg) && bq == Innermost(bc)
    && (seg.Down? ==> which == seg.dir && bp == Outermost(seg).node)
    && (seg.Top? ==> bp == root)
  }

  lemma {:induction false} StepUneven(c: Ctx, t: Tree, bc: Ctx, seg: Ctx, d: Side)
    requires t.Bin? && Segmented(c, t, bc, seg)
    ensures t.bal != 0 ==> Segmented(Step(c, t, d), Kid(t, d), c, Step(Top, t, d))
    ensures t.bal == 0 ==> Segmented(Step(c, t, d), Kid(t, d), bc, Step(seg, t, d))
  {
  }

  lemma {:induction false} StepPointers(root: Node?, bp: Node?, bq: Node?, q: Node?, which: Side,
                                        bc: Ctx, seg: Ctx, c: Ctx, t: Tree, d: Side)
    requires t.Bin? && Pointers(root, bp, bq, q, which, bc, seg) && c == Compose(bc, seg)
    requires seg.Top? ==> c.Top? && root == t.node
    ensures Pointers(root, t.node, q, t.node, d, c, Step(Top, t, d))
    ensures Pointers(root, bp, bq, t.node, d, bc, Step(seg, t, d))
  {
  }

  /** Where the search of kavl_insert has got to, in its variables and arrays. */
  ghost predicate SearchingNow(root: Node?, bp: Node?, bq: Node?, q: Node?, which: Side, top: nat, pathLen: nat,
                            path: array<Node?>, stack: array<Side>, c: Ctx, t: Tree, bc: Ctx, seg: Ctx)
    reads path, stack
  {
    && Segmented(c, t, bc, seg) && Pointers(root, bp, bq, q, which, bc, seg) && Recorded(path, stack, c, seg)
    && pathLen == Depth(c) && top == Depth(seg)
    && (c.Top? ==> root == Root(t)) && (c.Down? ==> root != null && seg.Down?)
  }

  /** SearchingNow, wrapped so that the methods carry it along by name. */
  ghost predicate Searching(root: Node?, bp: Node?, bq: Node?, q: Node?, which: Side, top: nat, pathLen: nat,
                            path: array<Node?>, stack: array<Side>, c: Ctx, t: Tree, bc: Ctx, seg: Ctx, w: nat := 3)
    reads path, stack
  {
    if w == 0 then SearchingNow(root, bp, bq, q, which, top, pathLen, path, stack, c, t, bc, seg)
    else Searching(root, bp, bq, q, which, top, pathLen, path, stack, c, t, bc, seg, w - 1)
  }

  lemma {:induction false} SearchingOpen(root: Node?, bp: Node?, bq: Node?, q: Node?, which: Side, top: nat, pathLen: nat,
                                         path: array<Node?>, stack: array<Side>, c: Ctx, t: Tree, bc: Ctx, seg: Ctx,
                                         w: nat := 3)
    requires Searching(root, bp, bq, q, which, top, pathLen, path, stack, c, t, bc, seg, w)
    ensures SearchingNow(root, bp, bq, q, which, top, pathLen, path, stack, c, t, bc, seg)
  {
    if w > 0 { SearchingOpen(root, bp, bq, q, which, top, pathLen, path, stack, c, t, bc, seg, w - 1); }
  }

  lemma {:induction false} SearchingClose(root: Node?, bp: Node?, bq: Node?, q: Node?, which: Side, top: nat, pathLen: nat,
                                          path: array<Node?>, stack: array<Side>, c: Ctx, t: Tree, bc: Ctx, seg: Ctx,
                                          w: nat := 3)
    requires SearchingNow(root, bp, bq, q, which, top, pathLen, path, stack, c, t, bc, seg)
    ensures Searching(root, bp, bq, q, which, top, pathLen, path, stack, c, t, bc, seg, w)
  {
    if w > 0 { SearchingClose(root, bp, bq, q, which, top, pathLen, path, stack, c, t, bc, seg, w - 1); }
  }

  /** One step down: the uneven nodes start the stack afresh. */
  method Descend(root: Node?, p: Node, bp0: Node?, bq0: Node?, q: Node?, which: Side, next: Side, top0: nat, pathLen: nat,
                 path: array<Node?>, stack: array<Side>, ghost c: Ctx, ghost t: Tree, ghost bc0: Ctx, ghost seg0: Ctx)
    returns (bp: Node?, bq: Node?, top: nat, ghost bc: Ctx, ghost seg: Ctx)
    requires stack.Length == path.Length == MAX_DEPTH && t.Bin? && p == t.node && Shape(t)
    requires Searching(root, bp0, bq0, q, which, top0, pathLen, path, stack, c, t, bc0, seg0)
    modifies path, stack
    ensures Shape(t)
    ensures Searching(root, bp, bq, p, next, top, pathLen + 1, path, stack, Step(c, t, next), Kid(t, next), bc, seg)
  {
    bp, bq, top, bc, seg := bp0, bq0, top0, bc0, seg0;
    SearchingOpen(root, bp, bq, q, which, top, pathLen, path, stack, c, t, bc, seg);
    StepUneven(c, t, bc, seg, next);
    StepPointers(root, bp, bq, q, which, bc, seg, c, t, next);
    if p.balance != 0 {
      ForgetSegment(path, stack, c, seg);
      bq, bp, top := q, p, 0;
      bc, seg := c, Top;
    }
    Record(path, stack, pathLen, top, p, next, c, seg, t);
    top, seg := top + 1, Step(seg, t, next);
    SearchingClose(root, bp, bq, p, next, top, pathLen + 1, path, stack, Step(c, t, next), Kid(t, next), bc, seg);
  }

  /** The search loop of kavl_insert. */
  method FindSlot(root: Node?, key: bytes, stack: array<Side>, path: array<Node?>, ghost tree: Tree)
    returns (found: Node?, cnt: int, bp: Node?, bq: Node?, q: Node?, which: Side, top: nat, pathLen: nat,
             ghost bc: Ctx, ghost seg: Ctx)
    requires stack.Length == path.Length == MAX_DEPTH
    requires root == Root(tree) && Shape(tree) && KavlTree.Valid(tree) && Count(tree) <= UINT_MAX
    modifies stack, path
    ensures cnt == NumAtMost(Inorder(tree), key)
    ensures found != null ==> found in Nodes(tree) && found.key == key
    ensures found == null ==> forall n <- Nodes(tree) :: n.key != key
    ensures found == null ==>
              && SlotFor(tree, Compose(bc, seg), key) && DeepestUneven(bc, seg)
              && Recorded(path, stack, Compose(bc, seg), seg)
              && pathLen == Depth(Compose(bc, seg)) && top == Depth(seg)
              && Pointers(null, bp, bq, q, which, bc, seg)
  {
    StartSearch(tree, key);
    bp, bq := root, null;
    which, top, pathLen, cnt, found := 0, 0, 0, 0, null;
    ghost var c, t := Top, tree;
    bc, seg := Top, Top;
    NothingRecorded(path, stack);
    var p := bp;
    q := bq;
    HeightBound(tree);
    SearchingClose(root, bp, bq, q, which, top, pathLen, path, stack, c, t, bc, seg);
    while p != null
      invariant p == Root(t) && Shape(t)
      invariant Narrowed(tree, c, t, key, cnt)
      invariant Searching(root, bp, bq, q, which, top, pathLen, path, stack, c, t, bc, seg)
      decreases t
    {
      var cmp := Scmp(key, p.key);
      StepSearch(tree, c, t, key, cnt);
      if cmp >= 0 {
        cnt := cnt + (if p.p0 != null then p.p0.size else 0) + 1;
      }
      if cmp == 0 {
        found := p;
        return;
      }
      var next: Side := if cmp > 0 then 1 else 0;
      bp, bq, top, bc, seg := Descend(root, p, bp, bq, q, which, next, top, pathLen, path, stack, c, t, bc, seg);
      which, pathLen := next, pathLen + 1;
      c, t := Step(c, t, which), Kid(t, which);
      q, p := p, p.P(which);
    }
    SearchingOpen(root, bp, bq, q, which, top, pathLen, path, stack, c, t, bc, seg);
    EndSearch(tree, c, key, cnt);
  }

  lemma {:induction false} EntryRoot(c: Ctx, t: Tree)
    ensures Root(Plug(c, t)) == Entry(c, Root(t))
  {
    if c.Down? {
      EntryRoot(c.up, Make(c.dir, t, c.node, c.bal, c.size, c.other));
    }
  }

  lemma {:induction false} EntryOutermost(c: Ctx, delta: int, hole: Node?)
    requires c.Down?
    ensures Entry(c, hole) == Entry(Resize(c, delta), hole) == Outermost(c).node
    ensures Outermost(Resize(c, delta)).node == Outermost(c).node && Resize(c, delta).Down?
  {
    if c.up.Down? {
      EntryOutermost(c.up, delta, c.node);
    }
  }

  /** The two loops of kavl_insert after the new leaf is linked in. */
  method Grow(bp: Node, x: Node, stack: array<Side>, path: array<Node?>, pathLen: nat, ghost bc: Ctx, ghost seg: Ctx)
    requires seg.Down? && bp == Outermost(seg).node
    requires DistinctCtx(Compose(bc, seg)) && x !in CtxNodes(Compose(bc, seg))
    requires ShapeCtx(Compose(bc, seg), x) && Shape(Leaf(x))
    requires Recorded(path, stack, Compose(bc, seg), seg) && pathLen == Depth(Compose(bc, seg))
    modifies Spine(Compose(bc, seg))
    ensures At(Resize(bc, 1), Grown(seg, x))
  {
    ghost var c := Compose(bc, seg);
    ghost var b1, s1 := Resize(bc, 1), Resize(seg, 1);
    CtxFacts(c);
    ChangeSizes(path, 0, pathLen, 1, c, x);
    GrowPaths(bc, seg, x);
    assert allocated(CtxNodes(b1));
    ChangeBalances(bp, x, stack, s1);
    assert ShapeCtx(b1, bp);
    GrowDone(b1, s1, bp, x);
  }

  lemma {:induction false} GrowPaths(bc: Ctx, seg: Ctx, x: Node)
    requires seg.Down? && DistinctCtx(Compose(bc, seg)) && x !in CtxNodes(Compose(bc, seg))
    requires ShapeCtx(Resize(Compose(bc, seg), 1), x)
    ensures var b1, s1 := Resize(bc, 1), Resize(seg, 1);
            && ShapeCtx(s1, x) && ShapeCtx(b1, Outermost(seg).node)
            && s1.Down? && Outermost(s1).node == Outermost(seg).node
            && DistinctCtx(s1) && DistinctCtx(b1) && CtxNodes(s1) !! CtxNodes(b1)
            && Spine(s1) <= CtxNodes(s1) && Spine(s1) == Spine(seg) && x !in CtxNodes(s1) && x !in CtxNodes(b1)
            && Spine(seg) <= Spine(Compose(bc, seg))
            && Depth(s1) == Depth(seg) && PathDirs(s1) == PathDirs(seg)
  {
    var b1, s1 := Resize(bc, 1), Resize(seg, 1);
    ComposeChanges(bc, seg, 1);
    ShapeCompose(b1, s1, x);
    EntryOutermost(seg, 1, x);
    ChangeFacts(bc, 1);
    ChangeFacts(seg, 1);
    ComposeNodes(bc, seg);
    ComposePaths(bc, seg);
    CtxFacts(s1);
    ResizePath(seg, 1);
  }

  lemma {:induction false} GrowDone(b1: Ctx, s1: Ctx, bp: Node, x: Node)
    requires s1.Down? && DistinctCtx(s1) && DistinctCtx(b1) && CtxNodes(s1) !! CtxNodes(b1)
    requires x !in CtxNodes(s1) && x !in CtxNodes(b1)
    requires ShapeCtx(Tilt(s1), x) && Shape(Leaf(x)) && ShapeCtx(b1, bp) && bp == Outermost(s1).node
    ensures At(b1, Plug(Tilt(s1), Leaf(x)))
  {
    var t := Tilt(s1);
    ChangeFacts(s1, 0);
    Refocus(t, Leaf(x));
    PlugNodes(t, Leaf(x));
    EntryRoot(t, Leaf(x));
    TiltEntry(s1, x);
  }

  lemma {:induction false} TiltEntry(c: Ctx, hole: Node?)
    requires c.Down?
    ensures Entry(Tilt(c), hole) == Outermost(c).node
  {
    if c.up.Down? {
      TiltEntry(c.up, c.node);
    }
  }

  /** The end of kavl_insert: rotate where needed and hang the result below bq. */
  method Settle(root: Node?, bp: Node, bq: Node?, ghost bc: Ctx, ghost u: Tree) returns (newRoot: Node?)
    requires At(bc, u) && Repairable(u) && -2 <= u.bal <= 2 && Increasing(Inorder(u))
    requires bp == Root(u) && bq == Innermost(bc) && root == Entry(bc, bp)
    modifies Nodes(u), if bq == null then {} else {bq}
    ensures At(bc, Repair(u))
    ensures newRoot == Entry(bc, Root(Repair(u)))
  {
    newRoot := root;
    if bp.balance > -2 && bp.balance < 2 {
      return;
    }
    assert allocated(CtxNodes(bc));
    SettledParts(u);
    var r := RotateInserted(bp, if bp.balance < 0 then 1 else 0, u);
    assert ShapeCtx(bc, bp);
    assert Shape(Repair(u)) && allocated(Nodes(Repair(u)));
    if bq == null {
      newRoot := r;
    } else {
      Rehang(bp, bq, r, bc);
    }
  }

  lemma {:induction false} SettledParts(u: Tree)
    requires Repairable(u) && Increasing(Inorder(u))
    ensures Distinct(Repair(u)) && Nodes(Repair(u)) == Nodes(u)
  {
    RepairKeeps(u);
    IncreasingDistinct(Repair(u));
    InorderFacts(u);
    InorderFacts(Repair(u));
  }

  method RotateInserted(bp: Node, which: Side, ghost u: Tree) returns (r: Node)
    requires CanRotate(u, which) && Shape(u) && Increasing(Inorder(u)) && bp == Root(u)
    modifies Nodes(u)
    ensures Shape(Repaired(u, which)) && r == Root(Repaired(u, which))
  {
    var b1 := if which == 0 then 1 else -1;
    var q := bp.P(1 - which);
    assert Shape(Kid(u, 1 - which));
    IncreasingDistinct(u);
    if q.balance == b1 {
      ghost var v := Rotated1(u, which);
      RotationKeeps(u, which);
      IncreasingDistinct(v);
      r := Rotate1(bp, which, u);
      SetBalances(r, bp, which, 0, 0, v);
    } else {
      r := Rotate2(bp, which, u);
    }
  }

  /** The balance bytes after a single rotation. */
  method SetBalances(q: Node, p: Node, which: Side, root: int, child: int, ghost v: Tree)
    requires v.Bin? && Kid(v, which).Bin? && q == v.node && p == Kid(v, which).node
    requires Distinct(v) && Shape(v)
    modifies q, p
    ensures Shape(Rebalanced(v, which, root, child))
  {
    SingleParts(v, 1 - which);
    ghost var a, b, e := Kid(v, 1 - which), Kid(Kid(v, which), 0), Kid(Kid(v, which), 1);
    assert Shape(a) && Shape(Kid(v, which)) && Shape(b) && Shape(e);
    q.balance := root;
    p.balance := child;
    assert Shape(a) && Shape(b) && Shape(e);
  }

  method Rehang(bp: Node, bq: Node, r: Node?, ghost bc: Ctx)
    requires bc.Down? && bq == bc.node && DistinctCtx(bc) && ShapeCtx(bc, bp) && bp !in CtxNodes(bc)
    modifies bq
    ensures ShapeCtx(bc, r)
  {
    assert Root(bc.other) != bp;
    assert Shape(bc.other) && ShapeCtx(bc.up, bq);
    if bp == bq.p0 {
      bq.p0 := r;
    } else {
      bq.p1 := r;
    }
    assert Shape(bc.other) && ShapeCtx(bc.up, bq);
  }

  /** Writes the new leaf and links it below q. */
  method Link(root: Node?, q: Node?, which: Side, x: Node, ghost c: Ctx) returns (newRoot: Node?)
    requires At(c, Nil) && root == Entry(c, null) && q == Innermost(c) && (c.Down? ==> which == c.dir)
    requires x !in CtxNodes(c)
    modifies x, if q == null then {} else {q}
    ensures Shape(Leaf(x)) && ShapeCtx(c, x) && newRoot == Entry(c, x)
  {
    x.balance, x.size, x.p0, x.p1 := 0, 1, null, null;
    newRoot := root;
    if q == null {
      newRoot := x;
    } else {
      assert Shape(c.other) && ShapeCtx(c.up, q);
      if which == 0 { q.p0 := x; } else { q.p1 := x; }
      assert Shape(c.other) && ShapeCtx(c.up, q);
    }
  }

  /** kavl_insert once the search has found the slot. */
  method InsertAt(root: Node?, x: Node, bp: Node?, bq: Node?, q: Node?, which: Side,
                  stack: array<Side>, path: array<Node?>, pathLen: nat, ghost tree: Tree, ghost bc: Ctx, ghost seg: Ctx)
    returns (newRoot: Node?, ghost newTree: Tree)
    requires root == Root(tree) && Shape(tree) && KavlTree.Valid(tree) && x !in Nodes(tree)
    requires SlotFor(tree, Compose(bc, seg), x.key) && DeepestUneven(bc, seg)
    requires Recorded(path, stack, Compose(bc, seg), seg) && pathLen == Depth(Compose(bc, seg))
    requires Pointers(null, bp, bq, q, which, bc, seg)
    modifies Nodes(tree), x
    ensures newRoot == Root(newTree) && Shape(newTree) && KavlTree.Valid(newTree)
    ensures Inorder(newTree) == Before(Compose(bc, seg)) + [x] + After(Compose(bc, seg))
  {
    ghost var c := Compose(bc, seg);
    InsertFocus(tree, c, bc, seg);
    assert allocated(CtxNodes(c));
    newRoot := Link(root, q, which, x, c);
    if bp == null {
      newTree := Leaf(x);
      assert Inorder(newTree) == [x];
      return;
    }
    PlugBalanced(c, Nil);
    ComposeFits(bc, seg, 0);
    newRoot, newTree := Mend(newRoot, x, bp, bq, stack, path, pathLen, tree, bc, seg);
  }

  /** kavl_insert from the new leaf on */
  method Mend(root: Node?, x: Node, bp: Node, bq: Node?, stack: array<Side>, path: array<Node?>, pathLen: nat,
              ghost tree: Tree, ghost bc: Ctx, ghost seg: Ctx)
    returns (newRoot: Node?, ghost newTree: Tree)
    requires KavlTree.Valid(tree) && x !in Nodes(tree) && seg.Down? && bp == Outermost(seg).node && bq == Innermost(bc)
    requires SlotFor(tree, Compose(bc, seg), x.key) && DeepestUneven(bc, seg)
    requires Recorded(path, stack, Compose(bc, seg), seg) && pathLen == Depth(Compose(bc, seg))
    requires DistinctCtx(Compose(bc, seg)) && CtxNodes(Compose(bc, seg)) == Nodes(tree) && Fits(seg, 0)
    requires Spine(Compose(bc, seg)) <= Nodes(tree)
    requires Shape(Leaf(x)) && ShapeCtx(Compose(bc, seg), x) && root == Entry(Compose(bc, seg), x)
    modifies Nodes(tree), x
    ensures newRoot == Root(newTree) && Shape(newTree) && KavlTree.Valid(newTree)
    ensures Inorder(newTree) == Before(Compose(bc, seg)) + [x] + After(Compose(bc, seg))
  {
    ghost var c := Compose(bc, seg);
    newRoot := root;
    InsertedValid(tree, bc, seg, x);
    Grow(bp, x, stack, path, pathLen, bc, seg);
    ghost var b1, u := Resize(bc, 1), Grown(seg, x);
    InsertTop(bc, seg, x);
    newRoot := Settle(newRoot, bp, bq, b1, u);
    newTree := Inserted(bc, seg, x);
    Refocus(b1, Repair(u));
    EntryRoot(b1, Repair(u));
  }

  lemma {:induction false} InsertFocus(tree: Tree, c: Ctx, bc: Ctx, seg: Ctx)
    requires Shape(tree) && Increasing(Inorder(tree)) && tree == Plug(c, Nil) && c == Compose(bc, seg)
    requires seg.Top? ==> bc.Top?
    ensures At(c, Nil) && Root(tree) == Entry(c, null) && CtxNodes(c) == Nodes(tree)
    ensures Innermost(c) == Innermost(seg) && (seg.Down? ==> c.Down? && c.dir == seg.dir)
    ensures c.Down? ==> c.node in CtxNodes(c)
    ensures Spine(c) <= CtxNodes(c)
  {
    IncreasingDistinct(tree);
    Refocus(c, Nil);
    EntryRoot(c, Nil);
    PlugNodes(c, Nil);
    CtxFacts(c);
  }

  lemma {:induction false} EntryCompose(a: Ctx, b: Ctx, delta: int, hole: Node?)
    ensures Entry(Compose(a, b), hole) == Entry(a, Entry(b, hole))
    ensures Entry(Resize(b, delta), hole) == Entry(b, hole)
  {
    if b.Down? {
      EntryCompose(a, b.up, delta, b.node);
    }
  }

  /** Where the repaired part hangs and which nodes it is made of. */
  lemma {:induction false} InsertTop(bc: Ctx, seg: Ctx, x: Node)
    requires seg.Down? && EvenBelow(seg) && Fits(seg, 0)
    requires Repairable(Grown(seg, x)) && Increasing(Inorder(Inserted(bc, seg, x)))
    ensures Increasing(Inorder(Grown(seg, x)))
    ensures -2 <= Grown(seg, x).bal <= 2
    ensures Root(Grown(seg, x)) == Outermost(seg).node
    ensures Innermost(Resize(bc, 1)) == Innermost(bc)
    ensures Entry(Compose(bc, seg), x) == Entry(Resize(bc, 1), Outermost(seg).node)
    ensures Nodes(Grown(seg, x)) + CtxNodes(bc) == CtxNodes(Compose(bc, seg)) + {x}
    ensures bc.Down? ==> bc.node in CtxNodes(bc)
  {
    GrownBalance(seg, x);
    InsertTopOrder(bc, seg, x);
    EntryCompose(bc, seg, 0, x);
    EntryCompose(Top, bc, 1, Outermost(seg).node);
    EntryOutermost(seg, 0, x);
    GrownNodes(bc, seg, x);
  }

  lemma {:induction false} InsertTopOrder(bc: Ctx, seg: Ctx, x: Node)
    requires Repairable(Grown(seg, x)) && Increasing(Inorder(Inserted(bc, seg, x)))
    ensures Increasing(Inorder(Grown(seg, x)))
  {
    RepairKeeps(Grown(seg, x));
    PlugOrder(Resize(bc, 1), Repair(Grown(seg, x)));
    IncreasingPart(Before(Resize(bc, 1)), Inorder(Grown(seg, x)), After(Resize(bc, 1)));
  }

  lemma {:induction false} GrownNodes(bc: Ctx, seg: Ctx, x: Node)
    ensures Nodes(Grown(seg, x)) + CtxNodes(bc) == CtxNodes(Compose(bc, seg)) + {x}
  {
    ChangeFacts(seg, 1);
    ChangeFacts(Resize(seg, 1), 0);
    PlugNodes(Tilt(Resize(seg, 1)), Leaf(x));
    assert Nodes(Leaf(x)) == {x};
    ComposeNodes(bc, seg);
  }

  /** A tree as its users hold it: a root pointer that insertion and erasure update. */
  class Handle {
    var root: Node?
    ghost var tree: Tree

    ghost predicate Valid()
      reads this, Nodes(tree)
    {
      root == Root(tree) && Shape(tree) && KavlTree.Valid(tree) && Count(tree) <= UINT_MAX
    }

    constructor ()
      ensures Valid() && tree == Nil
    {
      root, tree := null, Nil;
    }

    /** kavl_find */
    method Find(key: bytes) returns (p: Node?, cnt: int)
      requires Valid()
      ensures p != null ==> p in Nodes(tree) && p.key == key
      ensures p == null ==> forall n <- Nodes(tree) :: n.key != key
      ensures cnt == NumAtMost(Inorder(tree), key)
    {
      p, cnt := FindFrom(root, key, tree);
    }

    /** kavl_insert */
    method Insert(x: Node) returns (r: Node, cnt: int)
      requires Valid() && Count(tree) < UINT_MAX
      modifies this, Nodes(tree), x
      ensures Valid()
      ensures cnt == NumAtMost(Inorder(old(tree)), x.key)
      ensures HasKey(old(tree), x.key) ==>
                && r in Nodes(old(tree)) && r.key == x.key
                && tree == old(tree) && (x !in Nodes(tree) ==> unchanged(x))
      ensures !HasKey(old(tree), x.key) ==> r == x && InsertedAt(old(tree), tree, x, cnt)
    {
      var newRoot;
      ghost var newTree;
      r, cnt, newRoot, newTree := InsertFrom(root, x, tree);
      ghost var own: set<object> := Nodes(newTree);
      assert this !in own;
      root, tree := newRoot, newTree;
    }

    /** kavl_erase; `First` is the null argument, which erases the least node. */
    method Erase(x: Target) returns (p: Node?, cnt: int)
      requires Valid() && (x.First? ==> root != null)
      modifies this, Nodes(tree)
      ensures Valid()
      ensures x.Equal? && !HasKey(old(tree), x.key) ==> p == null && cnt == 0 && tree == old(tree)
      ensures x.Equal? && HasKey(old(tree), x.key) ==>
                && p != null && p.key == x.key && cnt == NumAtMost(Inorder(old(tree)), x.key)
                && ErasedAt(old(tree), tree, p, cnt)
      ensures x.First? ==> p != null && cnt == 1 && ErasedAt(old(tree), tree, p, cnt)
    {
      var newRoot;
      ghost var newTree;
      p, cnt, newRoot, newTree := EraseFrom(root, x, tree);
      ghost var own: set<object> := Nodes(newTree);
      assert this !in own;
      root, tree := newRoot, newTree;
    }
  }

  datatype Target = First | Equal(key: bytes)

  /** t' lists the nodes of t without p, which was the one in place cnt (counted from one). */
  ghost predicate ErasedAt(t: Tree, t': Tree, p: Node, cnt: int) {
    && 1 <= cnt <= |Inorder(t)| && Inorder(t)[cnt - 1] == p
    && Inorder(t') == Inorder(t)[..cnt - 1] + Inorder(t)[cnt..]
  }

  ghost predicate HasKey(t: Tree, k: bytes) {
    exists n <- Nodes(t) :: n.key == k
  }

  /** t' lists the nodes of t with x put in after the first cnt. */
  ghost predicate InsertedAt(t: Tree, t': Tree, x: Node, cnt: int) {
    && 0 <= cnt <= |Inorder(t)|
    && Inorder(t') == Inorder(t)[..cnt] + [x] + Inorder(t)[cnt..]
  }

  method InsertFrom(root: Node?, x: Node, ghost t: Tree)
    returns (r: Node, cnt: int, newRoot: Node?, ghost t': Tree)
    requires root == Root(t) && Shape(t) && KavlTree.Valid(t) && Count(t) < UINT_MAX
    modifies Nodes(t), x
    ensures newRoot == Root(t') && Shape(t') && KavlTree.Valid(t') && Count(t') <= UINT_MAX
    ensures cnt == NumAtMost(Inorder(t), x.key)
    ensures HasKey(t, x.key) ==>
              r in Nodes(t) && r.key == x.key && t' == t && (x !in Nodes(t) ==> unchanged(x))
    ensures !HasKey(t, x.key) ==> r == x && InsertedAt(t, t', x, cnt)
  {
    var stack := new Side[MAX_DEPTH];
    var path := new Node?[MAX_DEPTH];
    assert allocated(Nodes(t));
    var found, bp, bq, q, which, top, pathLen;
    ghost var bc, seg;
    found, cnt, bp, bq, q, which, top, pathLen, bc, seg := FindSlot(root, x.key, stack, path, t);
    if found != null {
      return found, cnt, root, t;
    }
    assert !HasKey(t, x.key);
    assert x !in Nodes(t);
    SlotInOrder(t, Compose(bc, seg), x.key);
    newRoot, t' := InsertAt(root, x, bp, bq, q, which, stack, path, pathLen, t, bc, seg);
    InorderLength(t');
    r := x;
  }

  lemma {:induction false} SlotInOrder(t: Tree, c: Ctx, k: bytes)
    requires SlotFor(t, c, k)
    ensures NumAtMost(Inorder(t), k) == |Before(c)| <= |Inorder(t)|
    ensures Inorder(t)[..|Before(c)|] == Before(c) && Inorder(t)[|Before(c)|..] == After(c)
    ensures |Inorder(t)| == Count(t)
  {
    SlotIsFree(t, c, k);
    PlugOrder(c, Nil);
    assert Inorder(t) == Before(c) + After(c);
    InorderLength(t);
  }

  // ----- erasure

  /** A node standing above the root, so that every node of the tree has a parent. */
  ghost function Above(fake: Node): Ctx {
    Down(Top, 0, fake, 0, 0, Nil)
  }

  /** The arrays hold the fake node, then the nodes and directions of c. */
  ghost predicate Trail(path: array<Node?>, dir: array<Side>, fake: Node, c: Ctx)
    reads path, dir
  {
    && Depth(c) + 1 <= path.Length && Depth(c) + 1 <= dir.Length
    && path[0] == fake && dir[0] == 0
    && (forall k :: 0 <= k < Depth(c) ==> path[k + 1] == PathNodes(c)[k])
    && (forall k :: 0 <= k < Depth(c) ==> dir[k + 1] == PathDirs(c)[k])
  }

  method Extend(path: array<Node?>, dir: array<Side>, d: nat, fake: Node, p: Node, which: Side,
                ghost c: Ctx, ghost t: Tree)
    requires Trail(path, dir, fake, c) && d == Depth(c) + 1 < path.Length && d < dir.Length
    requires t.Bin? && t.node == p && Shape(t)
    modifies path, dir
    ensures Trail(path, dir, fake, Step(c, t, which))
    ensures Shape(t)
  {
    ghost var own: set<object> := Nodes(t);
    assert path !in own && dir !in own;
    dir[d] := which;
    path[d] := p;
  }

  /** The search of kavl_erase for a given key. */
  method FindErased(fake: Node, key: bytes, path: array<Node?>, dir: array<Side>, ghost tree: Tree)
    returns (p: Node?, cnt: int, d: nat, ghost c: Ctx, ghost t: Tree)
    requires path.Length == dir.Length == MAX_DEPTH
    requires fake.p0 == Root(tree) && fake !in Nodes(tree) && Shape(tree)
    requires KavlTree.Valid(tree) && Count(tree) <= UINT_MAX
    modifies path, dir
    ensures p == null ==> cnt == 0 && forall n <- Nodes(tree) :: n.key != key
    ensures p != null ==>
              && p.key == key && tree == Plug(c, t) && p == Root(t) && cnt == |Before(c)| + Count(t.left) + 1
              && cnt == NumAtMost(Inorder(tree), key)
              && Trail(path, dir, fake, c) && d == Depth(c) + 1 && Depth(c) + Height(t) <= 45
  {
    HeightBound(tree);
    StartSearch(tree, key);
    c, t := Top, tree;
    p, cnt, d := fake.p0, 0, 1;
    dir[0], path[0] := 0, fake;
    if p == null {
      EndSearch(tree, Top, key, 0);
      return;
    }
    var cmp := Scmp(key, p.key);
    while cmp != 0
      invariant p != null && p == Root(t) && Shape(t)
      invariant Narrowed(tree, c, t, key, cnt)
      invariant cmp == Scmp(key, p.key)
      invariant d == Depth(c) + 1 && Depth(c) + Height(t) <= 45
      invariant Trail(path, dir, fake, c)
      decreases t
    {
      StepSearch(tree, c, t, key, cnt);
      var which: Side := if cmp > 0 then 1 else 0;
      if cmp > 0 {
        cnt := cnt + (if p.p0 != null then p.p0.size else 0) + 1;
      }
      Extend(path, dir, d, fake, p, which, c, t);
      d := d + 1;
      c, t := Step(c, t, which), Kid(t, which);
      p := p.P(which);
      if p == null {
        EndSearch(tree, c, key, cnt);
        cnt := 0;
        return;
      }
      cmp := Scmp(key, p.key);
    }
    StepSearch(tree, c, t, key, cnt);
    SizeIsCount(t.left);
    NarrowedCount(tree, c, t, key, cnt);
    cnt := cnt + (if p.p0 != null then p.p0.size else 0) + 1;
  }

  lemma {:induction false} NarrowedCount(tree: Tree, c: Ctx, t: Tree, k: bytes, cnt: int)
    requires Narrowed(tree, c, t, k, cnt)
    ensures cnt == |Before(c)| && tree == Plug(c, t) && Sized(t)
  {
    NarrowedOpen(tree, c, t, k, cnt);
  }

  /** The search of kavl_erase for the first node. */
  method FindFirst(fake: Node, path: array<Node?>, dir: array<Side>, ghost tree: Tree)
    returns (p: Node, d: nat, ghost c: Ctx, ghost t: Tree)
    requires path.Length == dir.Length == MAX_DEPTH
    requires tree.Bin? && fake.p0 == Root(tree) && fake !in Nodes(tree) && Shape(tree)
    requires KavlTree.Valid(tree) && Count(tree) <= UINT_MAX
    modifies path, dir
    ensures tree == Plug(c, t) && p == Root(t) && t.Bin? && t.left.Nil? && AllLeft(c)
    ensures Trail(path, dir, fake, c) && d == Depth(c) + 1 && Depth(c) + Height(t) <= 45
  {
    HeightBound(tree);
    dir[0], path[0] := 0, fake;
    d := 1;
    var next := fake.p0;
    c, t := Top, tree;
    while next.p0 != null
      invariant next != null && next == Root(t) && Shape(t) && t.Bin? && tree == Plug(c, t) && AllLeft(c)
      invariant d == Depth(c) + 1 && Depth(c) + Height(t) <= 45
      invariant Trail(path, dir, fake, c)
      decreases t
    {
      Extend(path, dir, d, fake, next, 0, c, t);
      d := d + 1;
      c, t := Step(c, t, 0), t.left;
      next := next.p0;
    }
    p := next;
  }

  method SetChild(parent: Node, which: Side, r: Node?, ghost ctx: Ctx, ghost hole: Node?)
    requires ctx.Down? && parent == ctx.node && which == ctx.dir && DistinctCtx(ctx) && ShapeCtx(ctx, hole)
    modifies parent
    ensures ShapeCtx(ctx, r)
  {
    assert Shape(ctx.other) && ShapeCtx(ctx.up, parent);
    if which == 0 { parent.p0 := r; } else { parent.p1 := r; }
    assert Shape(ctx.other) && ShapeCtx(ctx.up, parent);
  }

  /** Without right subtree: the left subtree moves up. */
  method SpliceLeaf(p: Node, parent: Node, which: Side, ghost ctx: Ctx, ghost t: Tree)
    requires At(ctx, t) && t.Bin? && p == t.node && t.right.Nil?
    requires ctx.Down? && parent == ctx.node && which == ctx.dir
    modifies parent
    ensures At(ctx, t.left)
  {
    assert allocated(Nodes(t.left));
    SetChild(parent, which, p.p0, ctx, p);
  }

  /** The right child has no left subtree: it moves up, and keeps its right one. */
  method SpliceNear(p: Node, q: Node, parent: Node, which: Side, ghost ctx: Ctx, ghost t: Tree)
    requires At(ctx, t) && t.Bin? && p == t.node && t.right.Bin? && q == t.right.node && t.right.left.Nil?
    requires ctx.Down? && parent == ctx.node && which == ctx.dir
    modifies parent, q
    ensures At(Down(ctx, 1, q, t.bal, t.size - 1, t.left), t.right.right)
  {
    ghost var l, rr := t.left, t.right.right;
    FarParts(ctx, t, Top, t.right);
    assert allocated(Nodes(l)) && allocated(Nodes(rr));
    SetChild(parent, which, q, ctx, p);
    Adopt(p, q, ctx, t, Top, t.right);
    NearJoin(ctx, t, q);
  }

  /** The successor takes over the left child, the balance and the size of the erased node. */
  method Adopt(p: Node, r: Node, ghost ctx: Ctx, ghost t: Tree, ghost sc: Ctx, ghost rt: Tree)
    requires t.Bin? && rt.Bin? && r == rt.node && FarApart(ctx, t, sc, rt) && p == t.node
    requires p.p0 == Root(t.left) && p.balance == t.bal && p.size == t.size
    requires ShapeCtx(ctx, r) && Shape(t.left) && Shape(rt.right)
    modifies r
    ensures ShapeCtx(ctx, r) && Shape(t.left) && Shape(rt.right)
    ensures r.p0 == Root(t.left) && r.p1 == old(r.p1) && r.balance == t.bal && r.size == t.size - 1
  {
    r.p0 := p.p0;
    r.balance := p.balance;
    r.size := p.size - 1;
  }

  lemma {:induction false} NearJoin(ctx: Ctx, t: Tree, q: Node)
    requires t.Bin? && t.right.Bin? && q == t.right.node && FarApart(ctx, t, Top, t.right)
    requires ShapeCtx(ctx, q) && Shape(t.left) && Shape(t.right.right)
    requires q.p0 == Root(t.left) && q.p1 == Root(t.right.right) && q.balance == t.bal && q.size == t.size - 1
    ensures At(Down(ctx, 1, q, t.bal, t.size - 1, t.left), t.right.right)
  {
  }

  /** Otherwise the least node of the right subtree takes the place, and leaves its right subtree behind in its own. */
  method SpliceFar(p: Node, q: Node, r: Node, parent: Node, which: Side, path: array<Node?>, lo: nat, hi: nat,
                   ghost ctx: Ctx, ghost t: Tree, ghost sc: Ctx, ghost rt: Tree)
    requires At(ctx, t) && t.Bin? && p == t.node && t.right == Plug(sc, rt)
    requires sc.Down? && sc.dir == 0 && q == sc.node && LeastAt(sc, rt) && r == rt.node
    requires ctx.Down? && parent == ctx.node && which == ctx.dir
    requires lo <= hi <= path.Length && hi - lo == Depth(sc)
    requires forall k :: lo <= k < hi ==> path[k] == PathNodes(sc)[k - lo]
    modifies parent, r, Spine(sc)
    ensures At(Compose(Down(ctx, 1, r, t.bal, t.size - 1, t.left), Resize(sc, -1)), rt.right)
  {
    FarParts(ctx, t, sc, rt);
    ghost var top := Entry(sc, r);
    MoveSuccessor(p, q, r, parent, which, ctx, t, sc, rt);
    assert allocated(Nodes(t.left)) && allocated(Nodes(rt.right)) && allocated(CtxNodes(ctx));
    ChangeSizes(path, lo, hi, -1, sc, Root(rt.right));
    assert Shape(t.left) && Shape(rt.right) && ShapeCtx(ctx, r);
    FarJoin(ctx, t, sc, rt, r);
  }

  method MoveSuccessor(p: Node, q: Node, r: Node, parent: Node, which: Side,
                       ghost ctx: Ctx, ghost t: Tree, ghost sc: Ctx, ghost rt: Tree)
    requires t.Bin? && rt.Bin? && FarApart(ctx, t, sc, rt) && p == t.node && r == rt.node
    requires p.p0 == Root(t.left) && p.p1 == Entry(sc, r) && p.balance == t.bal && p.size == t.size
    requires r.p1 == Root(rt.right)
    requires ShapeCtx(ctx, p) && Shape(t.left) && Shape(rt.right) && ShapeCtx(sc, r)
    requires ctx.Down? && parent == ctx.node && which == ctx.dir && sc.Down? && sc.dir == 0 && q == sc.node
    modifies parent, r, q
    ensures ShapeCtx(ctx, r) && Shape(t.left) && Shape(rt.right) && ShapeCtx(sc, Root(rt.right))
    ensures r.p0 == Root(t.left) && r.p1 == Entry(sc, r) && r.balance == t.bal && r.size == t.size - 1
  {
    assert allocated(Nodes(t.left)) && allocated(Nodes(rt.right)) && allocated(CtxNodes(ctx)) && allocated(CtxNodes(sc));
    SetChild(parent, which, r, ctx, p);
    assert Shape(t.left) && Shape(rt.right) && ShapeCtx(sc, r);
    SetChild(q, 0, r.p1, sc, r);
    assert Shape(t.left) && Shape(rt.right) && ShapeCtx(ctx, r);
    Adopt(p, r, ctx, t, sc, rt);
    assert ShapeCtx(sc, Root(rt.right));
    TakeRight(p, r, ctx, t, sc, rt);
  }

  /** The successor takes over the right child of the erased node. */
  method TakeRight(p: Node, r: Node, ghost ctx: Ctx, ghost t: Tree, ghost sc: Ctx, ghost rt: Tree)
    requires t.Bin? && rt.Bin? && FarApart(ctx, t, sc, rt) && r == rt.node
    requires ShapeCtx(ctx, r) && Shape(t.left) && Shape(rt.right) && ShapeCtx(sc, Root(rt.right))
    modifies r`p1
    ensures ShapeCtx(ctx, r) && Shape(t.left) && Shape(rt.right) && ShapeCtx(sc, Root(rt.right)) && r.p1 == old(p.p1)
  {
    r.p1 := p.p1;
  }

  /** The parts the far splice moves are apart from each other. */
  lemma {:induction false} FarParts(ctx: Ctx, t: Tree, sc: Ctx, rt: Tree)
    requires At(ctx, t) && t.Bin? && t.right == Plug(sc, rt) && LeastAt(sc, rt)
    ensures DistinctCtx(sc) && ShapeCtx(sc, rt.node) && Shape(rt) && Shape(rt.right) && Shape(t.left)
    ensures Entry(sc, rt.node) == Root(t.right)
    ensures FarApart(ctx, t, sc, rt)
    ensures Spine(sc) <= CtxNodes(sc)
  {
    Refocus(sc, rt);
    PlugNodes(sc, rt);
    EntryRoot(sc, rt);
    CtxFacts(sc);
  }

  ghost predicate FarApart(ctx: Ctx, t: Tree, sc: Ctx, rt: Tree)
    requires t.Bin? && rt.Bin?
  {
    && DistinctCtx(ctx) && DistinctCtx(sc) && Distinct(t.left) && Distinct(rt.right)
    && t.node !in CtxNodes(ctx) && t.node !in CtxNodes(sc) && t.node != rt.node
    && rt.node !in CtxNodes(ctx) && rt.node !in CtxNodes(sc)
    && rt.node !in Nodes(t.left) && rt.node !in Nodes(rt.right)
    && CtxNodes(ctx) !! CtxNodes(sc) && CtxNodes(ctx) !! Nodes(t.left) && CtxNodes(ctx) !! Nodes(rt.right)
    && CtxNodes(sc) !! Nodes(t.left) && CtxNodes(sc) !! Nodes(rt.right)
    && Nodes(t.left) !! Nodes(rt.right)
  }

  lemma {:induction false} FarJoin(ctx: Ctx, t: Tree, sc: Ctx, rt: Tree, r: Node)
    requires t.Bin? && rt.Bin? && r == rt.node && FarApart(ctx, t, sc, rt)
    requires ShapeCtx(ctx, r) && Shape(t.left) && Shape(rt.right) && ShapeCtx(Resize(sc, -1), Root(rt.right))
    requires r.p0 == Root(t.left) && r.p1 == Entry(sc, rt.node) && sc.Down?
    requires r.balance == t.bal && r.size == t.size - 1
    ensures At(Compose(Down(ctx, 1, r, t.bal, t.size - 1, t.left), Resize(sc, -1)), rt.right)
  {
    var top := Down(ctx, 1, r, t.bal, t.size - 1, t.left);
    EntryOutermost(sc, -1, rt.node);
    EntryOutermost(sc, -1, Root(rt.right));
    ChangeFacts(sc, -1);
    ShapeCompose(top, Resize(sc, -1), Root(rt.right));
    ComposeNodes(top, Resize(sc, -1));
  }

  // ----- the rebalancing loop of an erasure

  lemma {:induction false} ShrunkParts(v: Tree, d: Side)
    requires CanShrink(v, d) && Increasing(Inorder(v))
    ensures Distinct(v) && Distinct(Shrunk(v, d)) && Nodes(Shrunk(v, d)) == Nodes(v)
  {
    ShrunkKeeps(v, d);
    IncreasingDistinct(v);
    IncreasingDistinct(Shrunk(v, d));
    InorderFacts(v);
    InorderFacts(Shrunk(v, d));
  }

  /** The rotation, if any, and the balance bytes of one turn of the loop. */
  method ShrinkNode(q: Node, which: Side, ghost v: Tree) returns (top: Node, stop: bool)
    requires CanShrink(v, which) && Shape(v) && Increasing(Inorder(v)) && q == v.node
    modifies Nodes(v)
    ensures Shape(Shrunk(v, which)) && top == Root(Shrunk(v, which)) && stop == Stops(v, which)
  {
    var other: Side := 1 - which;
    var b1, b2 := 1, 2;
    if which == 1 {
      b1, b2 := -b1, -b2;
    }
    IncreasingDistinct(v);
    top, stop := q, q.balance == b1;
    if q.balance == b2 {
      var r := q.P(other);
      assert Shape(Kid(v, other));
      if r.balance == -b1 {
        top := Rotate2(q, which, v);
      } else {
        var even := r.balance == 0;
        ghost var w := Rotated1(v, which);
        RotationKeeps(v, which);
        IncreasingDistinct(w);
        top := Rotate1(q, which, v);
        if even {
          SetBalances(r, q, which, -b1, b1, w);
          stop := true;
        } else {
          SetBalances(r, q, which, 0, 0, w);
        }
      }
    }
  }

  /** One turn of the rebalancing loop of kavl_erase. */
  method RebalanceStep(q: Node, which: Side, parent: Node, pdir: Side, ghost pc: Ctx, ghost c: Ctx, ghost u: Tree)
    returns (stop: bool)
    requires c.Down? && pc.Down? && parent == pc.node && pdir == pc.dir && q == c.node && which == c.dir
    requires At(Down(pc, c.dir, c.node, c.bal, c.size, c.other), u)
    requires CanShrink(Moved(c, u), c.dir) && Increasing(Inorder(Moved(c, u)))
    modifies parent, Nodes(Moved(c, u))
    ensures At(pc, Shrunk(Moved(c, u), c.dir)) && stop == Stops(Moved(c, u), c.dir)
  {
    ghost var v := Moved(c, u);
    ShrunkParts(v, c.dir);
    MoveBalance(q, which, pc, c, u);
    assert allocated(CtxNodes(pc)) && allocated(Nodes(v));
    var top;
    top, stop := ShrinkNode(q, which, v);
    assert ShapeCtx(pc, q);
    ghost var s := Shrunk(v, c.dir);
    assert Shape(s) && allocated(Nodes(s));
    SetChild(parent, pdir, top, pc, q);
  }

  method MoveBalance(q: Node, which: Side, ghost pc: Ctx, ghost c: Ctx, ghost u: Tree)
    requires c.Down? && q == c.node && which == c.dir
    requires At(Down(pc, c.dir, c.node, c.bal, c.size, c.other), u)
    modifies q
    ensures At(pc, Moved(c, u)) && q == Root(Moved(c, u))
  {
    assert Shape(u) && Shape(c.other) && ShapeCtx(pc, q);
    q.balance := q.balance + (if which == 1 then -1 else 1);
    assert Shape(u) && Shape(c.other) && ShapeCtx(pc, q);
  }

  /** The tree with the fake node above it agrees with the heap, and the arrays hold the path. */
  ghost predicate Hung(fake: Node, c: Ctx, u: Tree)
    reads CtxNodes(Compose(Above(fake), c)), Nodes(u)
  {
    At(Compose(Above(fake), c), u)
  }

  lemma {:induction false} TrailLast(path: array<Node?>, dir: array<Side>, fake: Node, c: Ctx)
    requires Trail(path, dir, fake, c)
    ensures Compose(Above(fake), c).Down?
    ensures path[Depth(c)] == Compose(Above(fake), c).node && dir[Depth(c)] == Compose(Above(fake), c).dir
    ensures c.Down? ==> Trail(path, dir, fake, c.up)
    ensures c.Down? ==> path[Depth(c)] == c.node && dir[Depth(c)] == c.dir
  {
    if c.Down? {
      var n, d, k := PathNodes(c), PathDirs(c), Depth(c.up);
      assert n == PathNodes(c.up) + [c.node] && d == PathDirs(c.up) + [c.dir];
      assert path[k + 1] == n[k] && dir[k + 1] == d[k];
      assert forall j :: 0 <= j < k ==> PathNodes(c.up)[j] == n[j] && PathDirs(c.up)[j] == d[j];
    }
  }

  lemma {:induction false} HungNodes(fake: Node, c: Ctx)
    ensures CtxNodes(Compose(Above(fake), c)) == {fake} + CtxNodes(c)
  {
    ComposeNodes(Above(fake), c);
  }

  /** What the loop keeps: only balance bytes above the hole are off, and nothing else changes. */
  ghost predicate Climbing(c: Ctx, u: Tree, order: seq<Node>) {
    && Hollow(c, u) && Increasing(order)
    && Before(c) + Inorder(u) + After(c) == order
  }

  lemma {:induction false} ClimbStep(c: Ctx, u: Tree, order: seq<Node>)
    requires c.Down? && Climbing(c, u, order)
    ensures CanShrink(Moved(c, u), c.dir) && Increasing(Inorder(Moved(c, u)))
    ensures !Stops(Moved(c, u), c.dir) ==> Climbing(c.up, Shrunk(Moved(c, u), c.dir), order)
    ensures Stops(Moved(c, u), c.dir) ==> Finished(Plug(c.up, Shrunk(Moved(c, u), c.dir)), order)
  {
    var v := Moved(c, u);
    ShrinkStep(c, u, v);
    ShrunkKeeps(v, c.dir);
    PlugOrder(c.up, Shrunk(v, c.dir));
    IncreasingPart(Before(c.up), Inorder(v), After(c.up));
  }

  ghost predicate Finished(t: Tree, order: seq<Node>) {
    KavlTree.Valid(t) && Inorder(t) == order
  }

  lemma {:induction false} ClimbTop(u: Tree, order: seq<Node>)
    requires Climbing(Top, u, order)
    ensures Finished(u, order)
  {
    assert Inorder(u) == [] + Inorder(u) + [];
  }

  lemma {:induction false} Unhang(fake: Node, c: Ctx, u: Tree)
    requires Hung(fake, c, u)
    ensures fake.p0 == Root(Plug(c, u)) && Shape(Plug(c, u)) && fake !in Nodes(Plug(c, u))
  {
    Refocus(Compose(Above(fake), c), u);
    ComposePlug(Above(fake), c, u);
    Refocus(Above(fake), Plug(c, u));
    PlugNodes(Above(fake), Plug(c, u));
  }

  /** One turn of the loop, with the arrays. */
  method Climb(path: array<Node?>, dir: array<Side>, d: nat, fake: Node, ghost c: Ctx, ghost u: Tree)
    returns (stop: bool)
    requires c.Down? && d == Depth(c) && Hung(fake, c, u) && Trail(path, dir, fake, c)
    requires CanShrink(Moved(c, u), c.dir) && Increasing(Inorder(Moved(c, u)))
    modifies fake, CtxNodes(c), Nodes(u)
    ensures Hung(fake, c.up, Shrunk(Moved(c, u), c.dir)) && Trail(path, dir, fake, c.up)
    ensures CtxNodes(c.up) + Nodes(Shrunk(Moved(c, u), c.dir)) == CtxNodes(c) + Nodes(u)
    ensures stop == Stops(Moved(c, u), c.dir)
  {
    TrailLast(path, dir, fake, c);
    TrailLast(path, dir, fake, c.up);
    HungNodes(fake, c.up);
    ShrunkParts(Moved(c, u), c.dir);
    ParentIn(fake, c.up);
    stop := RebalanceStep(path[d], dir[d], path[d - 1], dir[d - 1], Compose(Above(fake), c.up), c, u);
  }

  lemma {:induction false} ParentIn(fake: Node, c: Ctx)
    ensures Compose(Above(fake), c).Down?
    ensures Compose(Above(fake), c).node in {fake} + CtxNodes(c)
  {
  }

  /** The rebalancing loop of kavl_erase. */
  method Rebalance(path: array<Node?>, dir: array<Side>, d0: nat, fake: Node,
                   ghost c0: Ctx, ghost u0: Tree, ghost order: seq<Node>)
    returns (ghost t: Tree)
    requires Hung(fake, c0, u0) && Trail(path, dir, fake, c0) && d0 == Depth(c0) + 1
    requires Climbing(c0, u0, order)
    modifies fake, CtxNodes(c0), Nodes(u0)
    ensures fake.p0 == Root(t) && Shape(t) && Finished(t, order)
  {
    var d := d0 - 1;
    ghost var c, u := c0, u0;
    while d > 0
      invariant d == Depth(c) && Hung(fake, c, u) && Trail(path, dir, fake, c) && Climbing(c, u, order)
      invariant CtxNodes(c) + Nodes(u) == CtxNodes(c0) + Nodes(u0)
      decreases d
    {
      ClimbStep(c, u, order);
      ghost var v := Moved(c, u);
      var stop := Climb(path, dir, d, fake, c, u);
      if stop {
        t := Plug(c.up, Shrunk(v, c.dir));
        Unhang(fake, c.up, Shrunk(v, c.dir));
        return;
      }
      c, u := c.up, Shrunk(v, c.dir);
      d := d - 1;
    }
    ClimbTop(u, order);
    Unhang(fake, c, u);
    t := u;
  }

  // ----- kavl_erase

  /** Slots lo.. of the arrays hold the nodes and directions of c. */
  ghost predicate Segment(path: array<Node?>, dir: array<Side>, lo: nat, c: Ctx)
    reads path, dir
  {
    && lo + Depth(c) <= path.Length && lo + Depth(c) <= dir.Length
    && (forall k :: lo <= k < lo + Depth(c) ==> path[k] == PathNodes(c)[k - lo])
    && (forall k :: lo <= k < lo + Depth(c) ==> dir[k] == PathDirs(c)[k - lo])
  }

  method ExtendSegment(path: array<Node?>, dir: array<Side>, lo: nat, d: nat, fake: Node, q: Node,
                       ghost c: Ctx, ghost sc: Ctx, ghost t: Tree)
    requires Trail(path, dir, fake, c) && Depth(c) + 1 < lo && Segment(path, dir, lo, sc)
    requires d == lo + Depth(sc) < path.Length && d < dir.Length
    requires t.Bin? && t.node == q && Shape(t)
    modifies path, dir
    ensures Trail(path, dir, fake, c) && Segment(path, dir, lo, Step(sc, t, 0)) && Shape(t)
  {
    ghost var own: set<object> := Nodes(t);
    assert path !in own && dir !in own;
    dir[d] := 0;
    path[d] := q;
  }

  /** The inner loop of kavl_erase: the least node of the right subtree, and its parent. */
  method FindSuccessor(first: Node, path: array<Node?>, dir: array<Side>, e: nat, fake: Node, ghost c: Ctx, ghost R: Tree)
    returns (q: Node, r: Node, d: nat, ghost sc: Ctx, ghost rt: Tree)
    requires Trail(path, dir, fake, c) && e == Depth(c) + 1 && path.Length == dir.Length == MAX_DEPTH
    requires R.Bin? && first == R.node && R.left.Bin? && Shape(R) && e + Height(R) <= 46
    modifies path, dir
    ensures Trail(path, dir, fake, c) && Segment(path, dir, e + 1, sc) && d == e + 1 + Depth(sc)
    ensures R == Plug(sc, rt) && LeastAt(sc, rt) && r == rt.node
    ensures sc.Down? && sc.dir == 0 && q == sc.node
  {
    d := e + 1;
    q := first;
    ghost var u := R;
    sc := Top;
    while true
      invariant q == Root(u) && u.Bin? && u.left.Bin? && Shape(u)
      invariant R == Plug(sc, u) && AllLeft(sc)
      invariant d == e + 1 + Depth(sc) && Depth(sc) + Height(u) <= Height(R)
      invariant Trail(path, dir, fake, c) && Segment(path, dir, e + 1, sc)
      decreases u
    {
      ExtendSegment(path, dir, e + 1, d, fake, q, c, sc, u);
      d := d + 1;
      r := q.p0;
      sc, u := Step(sc, u, 0), u.left;
      if r.p0 == null {
        break;
      }
      q := r;
    }
    rt := u;
  }

  lemma {:induction false} ComposeAssociative(a: Ctx, b: Ctx, c: Ctx)
    ensures Compose(Compose(a, b), c) == Compose(a, Compose(b, c))
  {
    if c.Down? {
      ComposeAssociative(a, b, c.up);
    }
  }

  /** The path once the successor r of t's node stands in its place. */
  ghost function Replaced(c: Ctx, t: Tree, sc: Ctx, r: Tree): Ctx
    requires t.Bin? && r.Bin?
  {
    Compose(Down(c, 1, r.node, t.bal, t.size - 1, t.left), Resize(sc, -1))
  }

  lemma {:induction false} HangReplaced(fake: Node, c: Ctx, t: Tree, sc: Ctx, r: Tree)
    requires t.Bin? && r.Bin?
    ensures Compose(Above(fake), Replaced(c, t, sc, r)) ==
            Compose(Down(Compose(Above(fake), c), 1, r.node, t.bal, t.size - 1, t.left), Resize(sc, -1))
    ensures Depth(Replaced(c, t, sc, r)) == Depth(c) + 1 + Depth(sc)
    ensures PathNodes(Replaced(c, t, sc, r)) == PathNodes(c) + [r.node] + PathNodes(sc)
    ensures PathDirs(Replaced(c, t, sc, r)) == PathDirs(c) + [1] + PathDirs(sc)
  {
    var top := Down(c, 1, r.node, t.bal, t.size - 1, t.left);
    ComposeAssociative(Above(fake), top, Resize(sc, -1));
    ComposePaths(top, Resize(sc, -1));
    ResizePath(sc, -1);
  }

  /** Slot e, reserved for the erased node, now belongs to its successor. */
  method FillSlot(path: array<Node?>, dir: array<Side>, e: nat, fake: Node, r: Node,
                  ghost c: Ctx, ghost t: Tree, ghost sc: Ctx, ghost rt: Tree, ghost u: Tree)
    requires t.Bin? && rt.Bin? && r == rt.node && e == Depth(c) + 1 < path.Length && e < dir.Length
    requires Trail(path, dir, fake, c) && Segment(path, dir, e + 1, sc)
    requires Hung(fake, Replaced(c, t, sc, rt), u)
    modifies path, dir
    ensures Trail(path, dir, fake, Replaced(c, t, sc, rt)) && Hung(fake, Replaced(c, t, sc, rt), u)
  {
    HangReplaced(fake, c, t, sc, rt);
    ghost var ctx := Compose(Above(fake), Replaced(c, t, sc, rt));
    ghost var own: set<object> := CtxNodes(ctx) + Nodes(u);
    assert path !in own && dir !in own;
    path[e] := r;
    dir[e] := 1;
    TrailReplaced(path, dir, e, fake, r, c, t, sc, rt);
  }

  lemma {:induction false} TrailReplaced(path: array<Node?>, dir: array<Side>, e: nat, fake: Node, r: Node,
                                         c: Ctx, t: Tree, sc: Ctx, rt: Tree)
    requires t.Bin? && rt.Bin? && r == rt.node && e == Depth(c) + 1 < path.Length && e < dir.Length
    requires Trail(path, dir, fake, c) && Segment(path, dir, e + 1, sc) && path[e] == r && dir[e] == 1
    ensures Trail(path, dir, fake, Replaced(c, t, sc, rt))
  {
    HangReplaced(fake, c, t, sc, rt);
    var n, d := PathNodes(Replaced(c, t, sc, rt)), PathDirs(Replaced(c, t, sc, rt));
    forall k | 0 <= k < |n| ensures path[k + 1] == n[k] && dir[k + 1] == d[k] {
      if k < Depth(c) {
        assert n[k] == PathNodes(c)[k] && d[k] == PathDirs(c)[k];
      } else if k > Depth(c) {
        assert n[k] == PathNodes(sc)[k - e] && d[k] == PathDirs(sc)[k - e];
      }
    }
  }

  /** How the tree around the erased node t.node relates to what the splice leaves behind. */
  ghost predicate Spliced(c: Ctx, t: Tree, sc: Ctx, rt: Tree, c': Ctx, u: Tree) {
    && t.Bin?
    && if t.right.Nil? then c' == c && u == t.left
       else t.right == Plug(sc, rt) && LeastAt(sc, rt) && c' == Replaced(c, t, sc, rt) && u == rt.right
  }

  /** The three splice cases of kavl_erase. */
  method SpliceOut(p: Node, path: array<Node?>, dir: array<Side>, d0: nat, fake: Node, ghost c: Ctx, ghost t: Tree)
    returns (d: nat, ghost sc: Ctx, ghost rt: Tree, ghost c': Ctx, ghost u: Tree)
    requires Hung(fake, c, t) && Trail(path, dir, fake, c) && d0 == Depth(c) + 1
    requires t.Bin? && p == t.node && path.Length == dir.Length == MAX_DEPTH && Depth(c) + Height(t) <= 45
    modifies path, dir, fake, CtxNodes(c), Nodes(t)
    ensures Spliced(c, t, sc, rt, c', u)
    ensures Hung(fake, c', u) && Trail(path, dir, fake, c') && d == Depth(c') + 1
  {
    TrailLast(path, dir, fake, c);
    ParentIn(fake, c);
    HungNodes(fake, c);
    ghost var ctx := Compose(Above(fake), c);
    var parent, which := path[d0 - 1], dir[d0 - 1];
    d, sc, rt, c', u := d0, Top, Nil, c, t.left;
    if p.p1 == null {
      SpliceLeaf(p, parent, which, ctx, t);
      return;
    }
    var q := p.p1;
    assert Shape(t.right);
    if q.p0 == null {
      rt := t.right;
      c', u := Replaced(c, t, sc, rt), rt.right;
      HangReplaced(fake, c, t, sc, rt);
      SpliceNear(p, q, parent, which, ctx, t);
      FillSlot(path, dir, d, fake, q, c, t, sc, rt, u);
      d := d + 1;
    } else {
      d, sc, rt, c', u := SpliceFarOut(p, q, parent, which, path, dir, d0, fake, c, t);
    }
  }

  /** The third case, with its inner loop. */
  method SpliceFarOut(p: Node, first: Node, parent: Node, which: Side, path: array<Node?>, dir: array<Side>,
                      e: nat, fake: Node, ghost c: Ctx, ghost t: Tree)
    returns (d: nat, ghost sc: Ctx, ghost rt: Tree, ghost c': Ctx, ghost u: Tree)
    requires Hung(fake, c, t) && Trail(path, dir, fake, c) && e == Depth(c) + 1
    requires t.Bin? && p == t.node && path.Length == dir.Length == MAX_DEPTH && Depth(c) + Height(t) <= 45
    requires t.right.Bin? && t.right.left.Bin? && first == t.right.node
    requires var ctx := Compose(Above(fake), c); ctx.Down? && parent == ctx.node && which == ctx.dir
    modifies path, dir, parent, Nodes(t)
    ensures Spliced(c, t, sc, rt, c', u)
    ensures Hung(fake, c', u) && Trail(path, dir, fake, c') && d == Depth(c') + 1
  {
    ghost var ctx := Compose(Above(fake), c);
    var q, r;
    q, r, d, sc, rt := FindAndKeep(first, path, dir, e, fake, ctx, c, t);
    FarNodes(ctx, t, sc, rt);
    SpliceFar(p, q, r, parent, which, path, e + 1, d, ctx, t, sc, rt);
    c', u := Replaced(c, t, sc, rt), rt.right;
    HangReplaced(fake, c, t, sc, rt);
    FillSlot(path, dir, e, fake, r, c, t, sc, rt, u);
  }

  lemma {:induction false} FarNodes(ctx: Ctx, t: Tree, sc: Ctx, rt: Tree)
    requires t.Bin? && t.right == Plug(sc, rt) && rt.Bin?
    ensures rt.node in Nodes(t) && Spine(sc) <= Nodes(t)
  {
    PlugNodes(sc, rt);
    CtxFacts(sc);
  }

  /** FindSuccessor writes the arrays only. */
  method FindAndKeep(first: Node, path: array<Node?>, dir: array<Side>, e: nat, fake: Node,
                     ghost ctx: Ctx, ghost c: Ctx, ghost t: Tree)
    returns (q: Node, r: Node, d: nat, ghost sc: Ctx, ghost rt: Tree)
    requires At(ctx, t) && Trail(path, dir, fake, c) && e == Depth(c) + 1 && path.Length == dir.Length == MAX_DEPTH
    requires t.Bin? && t.right.Bin? && first == t.right.node && t.right.left.Bin? && e + Height(t.right) <= 46
    modifies path, dir
    ensures At(ctx, t)
    ensures Trail(path, dir, fake, c) && Segment(path, dir, e + 1, sc) && d == e + 1 + Depth(sc)
    ensures t.right == Plug(sc, rt) && LeastAt(sc, rt) && r == rt.node
    ensures sc.Down? && sc.dir == 0 && q == sc.node
  {
    ghost var own: set<object> := CtxNodes(ctx) + Nodes(t);
    assert path !in own && dir !in own && Shape(t.right);
    assert allocated(CtxNodes(ctx)) && allocated(Nodes(t));
    q, r, d, sc, rt := FindSuccessor(first, path, dir, e, fake, c, t.right);
  }

  lemma {:induction false} Hang(fake: Node, tree: Tree, c: Ctx, t: Tree)
    requires tree == Plug(c, t) && Shape(tree) && Increasing(Inorder(tree))
    requires fake.p0 == Root(tree) && fake.p1 == null && fake.balance == 0 && fake.size == 0 && fake !in Nodes(tree)
    ensures Hung(fake, c, t)
    ensures CtxNodes(c) + Nodes(t) == Nodes(tree)
  {
    IncreasingDistinct(tree);
    assert Nodes(Nil) == {} && CtxNodes(Above(fake)) == {fake};
    assert At(Above(fake), tree);
    Refocus(Above(fake), tree);
    ComposePlug(Above(fake), c, t);
    Refocus(Compose(Above(fake), c), t);
    PlugNodes(c, t);
  }

  /** The sizes along the path have gone down by one. */
  method ShrinkSizes(path: array<Node?>, dir: array<Side>, d: nat, fake: Node, ghost c: Ctx, ghost t: Tree)
    requires Hung(fake, c, t) && Trail(path, dir, fake, c) && d == Depth(c) + 1
    modifies Spine(c)
    ensures Hung(fake, Resize(c, -1), t) && Trail(path, dir, fake, Resize(c, -1))
  {
    HungParts(fake, c, t);
    assert allocated(Nodes(t));
    forall k | 1 <= k < d ensures path[k] == PathNodes(c)[k - 1] {
      assert path[(k - 1) + 1] == PathNodes(c)[k - 1];
    }
    ChangeSizes(path, 1, d, -1, c, Root(t));
    ResizePath(c, -1);
    HungAgain(fake, c, t);
  }

  lemma {:induction false} HungParts(fake: Node, c: Ctx, t: Tree)
    requires Hung(fake, c, t)
    ensures ShapeCtx(c, Root(t)) && fake.p0 == Entry(c, Root(t)) && fake.p1 == null
    ensures fake.balance == 0 && fake.size == 0
    ensures DistinctCtx(c) && fake !in CtxNodes(c) && fake !in Nodes(t) && Distinct(t) && Shape(t)
    ensures CtxNodes(c) !! Nodes(t) && Spine(c) <= CtxNodes(c)
  {
    ShapeCompose(Above(fake), c, Root(t));
    ComposeNodes(Above(fake), c);
    CtxFacts(c);
    assert CtxNodes(Above(fake)) == {fake};
  }

  /** Below the fake node the path stays free of repetitions. */
  lemma {:induction false} HungApart(fake: Node, c: Ctx, t: Tree, hung: Ctx)
    requires DistinctCtx(c) && fake !in CtxNodes(c) && fake !in Nodes(t) && CtxNodes(c) !! Nodes(t)
    requires hung == Compose(Above(fake), Resize(c, -1))
    ensures DistinctCtx(hung) && CtxNodes(hung) !! Nodes(t)
  {
    ChangeFacts(c, -1);
    ComposeNodes(Above(fake), Resize(c, -1));
    assert CtxNodes(Above(fake)) == {fake};
  }

  lemma {:induction false} HungShape(fake: Node, c: Ctx, hole: Node?, hung: Ctx)
    requires ShapeCtx(Resize(c, -1), hole) && fake.p0 == Entry(c, hole) && fake.p1 == null
    requires fake.balance == 0 && fake.size == 0 && hung == Compose(Above(fake), Resize(c, -1))
    ensures ShapeCtx(hung, hole)
  {
    EntryCompose(Top, c, -1, hole);
    assert ShapeCtx(Above(fake), Entry(Resize(c, -1), hole));
    ShapeCompose(Above(fake), Resize(c, -1), hole);
  }

  lemma {:induction false} HungAgain(fake: Node, c: Ctx, t: Tree)
    requires ShapeCtx(Resize(c, -1), Root(t)) && fake.p0 == Entry(c, Root(t)) && fake.p1 == null
    requires fake.balance == 0 && fake.size == 0
    requires DistinctCtx(c) && fake !in CtxNodes(c) && fake !in Nodes(t) && Distinct(t) && Shape(t)
    requires CtxNodes(c) !! Nodes(t)
    ensures Hung(fake, Resize(c, -1), t)
  {
    HungApart(fake, c, t, Compose(Above(fake), Resize(c, -1)));
    HungShape(fake, c, Root(t), Compose(Above(fake), Resize(c, -1)));
  }

  /** The order after an erasure: everything around the erased node. */
  ghost function Without(c: Ctx, t: Tree): seq<Node>
    requires t.Bin?
  {
    Before(c) + Inorder(t.left) + (Inorder(t.right) + After(c))
  }

  lemma {:induction false} SpliceClimbs(tree: Tree, c: Ctx, t: Tree, sc: Ctx, rt: Tree, c': Ctx, u: Tree)
    requires KavlTree.Valid(tree) && tree == Plug(c, t) && Spliced(Resize(c, -1), t, sc, rt, c', u)
    ensures Climbing(c', u, Without(c, t))
    ensures CtxNodes(c') + Nodes(u) <= Nodes(tree)
  {
    PlugOrder(c, t);
    Regroup5(Before(c), Inorder(t.left), t.node, Inorder(t.right), After(c));
    IncreasingMiddle(Before(c) + Inorder(t.left), t.node, Inorder(t.right) + After(c));
    SplicedNodes(c, t, sc, rt, c', u);
    PlugNodes(c, t);
    ChangeFacts(c, -1);
    if t.right.Nil? {
      SpliceLeft(c, t);
      assert Inorder(t.right) + After(c) == After(c);
    } else {
      SpliceSuccessor(c, t, sc, rt);
      SpliceOrder(c, t, sc, rt);
    }
  }

  lemma {:induction false} ReplacedNodes(c: Ctx, t: Tree, sc: Ctx, rt: Tree, top: Ctx)
    requires t.Bin? && rt.Bin? && top == Down(Resize(c, -1), 1, rt.node, t.bal, t.size - 1, t.left)
    ensures CtxNodes(Compose(top, Resize(sc, -1))) == CtxNodes(c) + {rt.node} + Nodes(t.left) + CtxNodes(sc)
  {
    ChangeFacts(c, -1);
    ChangeFacts(sc, -1);
    ComposeNodes(top, Resize(sc, -1));
  }

  lemma {:induction false} SplicedNodes(c: Ctx, t: Tree, sc: Ctx, rt: Tree, c': Ctx, u: Tree)
    requires Spliced(Resize(c, -1), t, sc, rt, c', u)
    ensures CtxNodes(c') + Nodes(u) <= CtxNodes(c) + Nodes(t)
  {
    if t.right.Nil? {
      ChangeFacts(c, -1);
    } else {
      PlugNodes(sc, rt);
      ReplacedNodes(c, t, sc, rt, Down(Resize(c, -1), 1, rt.node, t.bal, t.size - 1, t.left));
      assert Nodes(rt.right) <= Nodes(rt) && rt.node in Nodes(rt);
      assert Nodes(t.right) <= Nodes(t) && Nodes(t.left) <= Nodes(t);
    }
  }

  /** kavl_erase once the node to erase has been found. */
  method EraseAt(p: Node, path: array<Node?>, dir: array<Side>, d0: nat, fake: Node,
                 ghost tree: Tree, ghost c: Ctx, ghost t: Tree)
    returns (ghost t': Tree)
    requires Shape(tree) && KavlTree.Valid(tree) && tree == Plug(c, t) && t.Bin? && p == t.node
    requires fake.p0 == Root(tree) && fake.p1 == null && fake.balance == 0 && fake.size == 0 && fake !in Nodes(tree)
    requires Trail(path, dir, fake, c) && d0 == Depth(c) + 1 && path.Length == dir.Length == MAX_DEPTH
    requires Depth(c) + Height(t) <= 45
    modifies path, dir, fake, Nodes(tree)
    ensures fake.p0 == Root(t') && Shape(t') && Finished(t', Without(c, t))
  {
    Hang(fake, tree, c, t);
    CtxFacts(c);
    ShrinkSizes(path, dir, d0, fake, c, t);
    ChangeFacts(c, -1);
    ghost var sc, rt, c', u;
    var d;
    ResizePath(c, -1);
    d, sc, rt, c', u := SpliceOut(p, path, dir, d0, fake, Resize(c, -1), t);
    SpliceClimbs(tree, c, t, sc, rt, c', u);
    t' := Rebalance(path, dir, d, fake, c', u, Without(c, t));
  }

  lemma {:induction false} WithoutInOrder(tree: Tree, c: Ctx, t: Tree, cnt: int)
    requires tree == Plug(c, t) && t.Bin? && cnt == |Before(c)| + Count(t.left) + 1
    ensures 1 <= cnt <= |Inorder(tree)| && Inorder(tree)[cnt - 1] == t.node
    ensures Without(c, t) == Inorder(tree)[..cnt - 1] + Inorder(tree)[cnt..]
    ensures |Without(c, t)| == Count(tree) - 1
  {
    PlugOrder(c, t);
    InorderLength(t.left);
    InorderLength(tree);
    Regroup5(Before(c), Inorder(t.left), t.node, Inorder(t.right), After(c));
    CutOut(Before(c) + Inorder(t.left), t.node, Inorder(t.right) + After(c));
  }

  lemma {:induction false} CutOut<T>(a: seq<T>, x: T, b: seq<T>)
    ensures var s := a + [x] + b;
            |s| == |a| + 1 + |b| && s[|a|] == x && s[..|a|] == a && s[|a| + 1..] == b
  {
  }

  /** Both searches: what kavl_erase has when it starts to take a node out. */
  ghost predicate Found(t: Tree, x: Target, p: Node?, cnt: int, c: Ctx, sub: Tree) {
    if p == null then
      x.Equal? && !HasKey(t, x.key) && cnt == 0
    else
      && t == Plug(c, sub) && sub.Bin? && p == sub.node && Depth(c) + Height(sub) <= 45
      && cnt == |Before(c)| + Count(sub.left) + 1
      && (x.Equal? ==> p.key == x.key && HasKey(t, x.key) && cnt == NumAtMost(Inorder(t), x.key))
      && (x.First? ==> cnt == 1)
  }

  method Locate(fake: Node, x: Target, path: array<Node?>, dir: array<Side>, ghost t: Tree)
    returns (p: Node?, cnt: int, d: nat, ghost c: Ctx, ghost sub: Tree)
    requires path.Length == dir.Length == MAX_DEPTH
    requires fake.p0 == Root(t) && fake !in Nodes(t) && Shape(t)
    requires KavlTree.Valid(t) && Count(t) <= UINT_MAX
    requires x.First? ==> t.Bin?
    modifies path, dir
    ensures Found(t, x, p, cnt, c, sub) && Shape(t)
    ensures p != null ==> Trail(path, dir, fake, c) && d == Depth(c) + 1
  {
    assert allocated(Nodes(t));
    ghost var own: set<object> := Nodes(t);
    assert path !in own && dir !in own;
    if x.Equal? {
      p, cnt, d, c, sub := FindErased(fake, x.key, path, dir, t);
      if p != null {
        PlugNodes(c, sub);
        assert p in Nodes(t);
      }
    } else {
      p, d, c, sub := FindFirst(fake, path, dir, t);
      cnt := 1;
      AllLeftBefore(c);
    }
  }

  method EraseFrom(root: Node?, x: Target, ghost t: Tree) returns (p: Node?, cnt: int, newRoot: Node?, ghost t': Tree)
    requires root == Root(t) && Shape(t) && KavlTree.Valid(t) && Count(t) <= UINT_MAX
    requires x.First? ==> root != null
    modifies Nodes(t)
    ensures newRoot == Root(t') && Shape(t') && KavlTree.Valid(t') && Count(t') <= UINT_MAX
    ensures p == null ==> x.Equal? && !HasKey(t, x.key) && cnt == 0 && t' == t
    ensures p != null ==> ErasedAt(t, t', p, cnt)
    ensures p != null && x.Equal? ==> p.key == x.key && HasKey(t, x.key) && cnt == NumAtMost(Inorder(t), x.key)
    ensures p != null && x.First? ==> cnt == 1
  {
    assert allocated(Nodes(t));
    var dir := new Side[MAX_DEPTH];
    var path := new Node?[MAX_DEPTH];
    var fake := new Node([]);
    fake.p0 := root;
    ghost var own: set<object> := Nodes(t);
    assert Shape(t) && fake !in own && path !in own && dir !in own;
    ghost var c, sub;
    var d;
    p, cnt, d, c, sub := Locate(fake, x, path, dir, t);
    if p == null {
      newRoot, t' := root, t;
      return;
    }
    WithoutInOrder(t, c, sub, cnt);
    t' := EraseAt(p, path, dir, d, fake, t, c, sub);
    InorderLength(t');
    newRoot := fake.p0;
  }
}
