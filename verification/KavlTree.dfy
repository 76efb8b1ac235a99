/**
 The abstract side of `kavl.h`: the tree a heap of nodes stands for, a tree with one
 subtree cut out (the path arrays of the C code), and what rotations do to them.
 */
module KavlTree {
  import opened Bytes

  /** 0 is left, 1 is right, as in the `p[2]` arrays of the C code. */
  type Side = d: int | 0 <= d <= 1

  /** A tree element. Its key never changes while the element is in a tree. */
  class Node {
    const key: bytes
    var p0: Node?
    var p1: Node?
    var balance: int
    var size: int

    constructor (key: bytes)
      ensures this.key == key && p0 == null && p1 == null && balance == 0 && size == 0
    {
      this.key := key;
      p0, p1, balance, size := null, null, 0, 0;
    }

    function P(d: Side): Node?
      reads this`p0, this`p1
    {
      if d == 0 then p0 else p1
    }
  }

  datatype Tree = Nil | Bin(left: Tree, node: Node, bal: int, size: int, right: Tree)

  /** A tree with a hole; the innermost frame comes first, `other` is the subtree beside the path. */
  datatype Ctx = Top | Down(up: Ctx, dir: Side, node: Node, bal: int, size: int, other: Tree)

  function Make(d: Side, sub: Tree, n: Node, b: int, s: int, other: Tree): Tree {
    if d == 0 then Bin(sub, n, b, s, other) else Bin(other, n, b, s, sub)
  }

  function Kid(t: Tree, d: Side): Tree
    requires t.Bin?
  {
    if d == 0 then t.left else t.right
  }

  /** +1 for left and -1 for right: how the balance byte moves when that side gets lower. */
  function Lean(d: Side): int { if d == 0 then 1 else -1 }

  /** x as seen from that side: a height difference right minus left, or left minus right. */
  function LeanBy(d: Side, x: int): int { if d == 0 then x else -x }

  function Max(a: int, b: int): int { if a < b then b else a }

  function Height(t: Tree): nat {
    if t.Nil? then 0 else 1 + Max(Height(t.left), Height(t.right))
  }

  function Count(t: Tree): nat {
    if t.Nil? then 0 else Count(t.left) + 1 + Count(t.right)
  }

  ghost function Inorder(t: Tree): seq<Node> {
    if t.Nil? then [] else Inorder(t.left) + [t.node] + Inorder(t.right)
  }

  ghost function Nodes(t: Tree): set<Node> {
    if t.Nil? then {} else Nodes(t.left) + {t.node} + Nodes(t.right)
  }

  ghost function Root(t: Tree): Node? {
    if t.Nil? then null else t.node
  }

  function SizeOf(t: Tree): int {
    if t.Nil? then 0 else t.size
  }

  /** Every balance byte is the height difference and lies in -1..1. */
  ghost predicate Balanced(t: Tree) {
    t.Bin? ==>
      && t.bal == Height(t.right) - Height(t.left) && -1 <= t.bal <= 1
      && Balanced(t.left) && Balanced(t.right)
  }

  /** Every size field is the number of nodes of its subtree. */
  ghost predicate Sized(t: Tree) {
    t.Bin? ==> t.size == Count(t) && Sized(t.left) && Sized(t.right)
  }

  ghost predicate Distinct(t: Tree) {
    t.Bin? ==>
      && t.node !in Nodes(t.left) && t.node !in Nodes(t.right)
      && Nodes(t.left) !! Nodes(t.right)
      && Distinct(t.left) && Distinct(t.right)
  }

  ghost predicate Increasing(s: seq<Node>) {
    forall i, j :: 0 <= i < j < |s| ==> Scmp(s[i].key, s[j].key) < 0
  }

  ghost predicate Valid(t: Tree) {
    Balanced(t) && Sized(t) && Increasing(Inorder(t))
  }

  // ----- trees with a hole

  ghost function Plug(c: Ctx, t: Tree): Tree {
    if c.Top? then t else Plug(c.up, Make(c.dir, t, c.node, c.bal, c.size, c.other))
  }

  ghost function Depth(c: Ctx): nat {
    if c.Top? then 0 else 1 + Depth(c.up)
  }

  ghost function PathNodes(c: Ctx): (s: seq<Node>)
    ensures |s| == Depth(c)
  {
    if c.Top? then [] else PathNodes(c.up) + [c.node]
  }

  ghost function PathDirs(c: Ctx): (s: seq<Side>)
    ensures |s| == Depth(c)
  {
    if c.Top? then [] else PathDirs(c.up) + [c.dir]
  }

  ghost function PathSizes(c: Ctx): (s: seq<int>)
    ensures |s| == Depth(c)
  {
    if c.Top? then [] else PathSizes(c.up) + [c.size]
  }

  ghost function PathBals(c: Ctx): (s: seq<int>)
    ensures |s| == Depth(c)
  {
    if c.Top? then [] else PathBals(c.up) + [c.bal]
  }

  ghost function Spine(c: Ctx): set<Node> {
    if c.Top? then {} else Spine(c.up) + {c.node}
  }

  ghost function CtxNodes(c: Ctx): set<Node> {
    if c.Top? then {} else CtxNodes(c.up) + {c.node} + Nodes(c.other)
  }

  ghost function Before(c: Ctx): seq<Node> {
    if c.Top? then []
    else if c.dir == 0 then Before(c.up)
    else Before(c.up) + Inorder(c.other) + [c.node]
  }

  ghost function After(c: Ctx): seq<Node> {
    if c.Top? then []
    else if c.dir == 0 then [c.node] + Inorder(c.other) + After(c.up)
    else After(c.up)
  }

  ghost predicate DistinctCtx(c: Ctx) {
    c.Down? ==>
      && c.node !in CtxNodes(c.up) && c.node !in Nodes(c.other)
      && Nodes(c.other) !! CtxNodes(c.up)
      && Distinct(c.other) && DistinctCtx(c.up)
  }

  /** The frames are balanced if the hole is filled with a tree of height h. */
  ghost predicate Fits(c: Ctx, h: int) {
    c.Down? ==>
      && c.bal == LeanBy(c.dir, Height(c.other) - h) && -1 <= c.bal <= 1
      && Balanced(c.other) && Fits(c.up, 1 + Max(h, Height(c.other)))
  }

  /** The height of the whole once the hole is filled with a tree of height h. */
  ghost function Over(c: Ctx, h: int): int {
    if c.Top? then h else Over(c.up, 1 + Max(h, Height(c.other)))
  }

  /** The size fields of the frames are right if the hole is filled with k nodes. */
  ghost predicate SizedCtx(c: Ctx, k: int) {
    c.Down? ==> c.size == k + 1 + Count(c.other) && Sized(c.other) && SizedCtx(c.up, c.size)
  }

  /** Every size field along the path moved by delta. */
  ghost function Resize(c: Ctx, delta: int): Ctx {
    if c.Top? then Top else Down(Resize(c.up, delta), c.dir, c.node, c.bal, c.size + delta, c.other)
  }

  /** Every balance byte along the path moved towards the path's side. */
  ghost function Tilt(c: Ctx): Ctx {
    if c.Top? then Top else Down(Tilt(c.up), c.dir, c.node, c.bal - Lean(c.dir), c.size, c.other)
  }

  ghost predicate Even(c: Ctx) {
    c.Down? ==> c.bal == 0 && Even(c.up)
  }

  /** Every frame but the outermost is evenly balanced. */
  ghost predicate EvenBelow(c: Ctx) {
    c.Down? && c.up.Down? ==> c.bal == 0 && EvenBelow(c.up)
  }

  /** The outermost frame. */
  ghost function Outermost(c: Ctx): Ctx
    requires c.Down?
    ensures Outermost(c).Down?
  {
    if c.up.Top? then c else Outermost(c.up)
  }

  lemma {:induction false} OutermostFirst(c: Ctx)
    requires c.Down?
    ensures PathNodes(c)[0] == Outermost(c).node
  {
    if c.up.Down? {
      OutermostFirst(c.up);
    }
  }

  ghost function Compose(a: Ctx, b: Ctx): Ctx {
    if b.Top? then a else Down(Compose(a, b.up), b.dir, b.node, b.bal, b.size, b.other)
  }

  // ----- what plugging does

  lemma {:induction false} PlugNodes(c: Ctx, t: Tree)
    ensures Nodes(Plug(c, t)) == CtxNodes(c) + Nodes(t)
    ensures Distinct(Plug(c, t)) <==> DistinctCtx(c) && Distinct(t) && CtxNodes(c) !! Nodes(t)
  {
    if c.Down? {
      PlugNodes(c.up, Make(c.dir, t, c.node, c.bal, c.size, c.other));
    }
  }

  lemma {:induction false} PlugOrder(c: Ctx, t: Tree)
    ensures Inorder(Plug(c, t)) == Before(c) + Inorder(t) + After(c)
  {
    if c.Down? {
      var u := Make(c.dir, t, c.node, c.bal, c.size, c.other);
      PlugOrder(c.up, u);
      if c.dir == 0 {
        Regroup5(Before(c.up), Inorder(t), c.node, Inorder(c.other), After(c.up));
        Regroup4(Before(c.up), Inorder(t), [c.node], Inorder(c.other) + After(c.up));
      } else {
        Regroup5(Before(c.up), Inorder(c.other), c.node, Inorder(t), After(c.up));
      }
    }
  }

  lemma {:induction false} PlugBalanced(c: Ctx, t: Tree)
    ensures Height(Plug(c, t)) == Over(c, Height(t))
    ensures Balanced(Plug(c, t)) <==> Fits(c, Height(t)) && Balanced(t)
  {
    if c.Down? {
      var u := Make(c.dir, t, c.node, c.bal, c.size, c.other);
      MakeFacts(c.dir, t, c.node, c.bal, c.size, c.other);
      PlugBalanced(c.up, u);
    }
  }

  lemma {:induction false} MakeFacts(d: Side, t: Tree, n: Node, b: int, s: int, o: Tree)
    ensures Height(Make(d, t, n, b, s, o)) == 1 + Max(Height(t), Height(o))
    ensures Balanced(Make(d, t, n, b, s, o)) <==>
            b == LeanBy(d, Height(o) - Height(t)) && -1 <= b <= 1 && Balanced(o) && Balanced(t)
  {
    if d == 0 {
    } else {
    }
  }

  lemma {:induction false} PlugSized(c: Ctx, t: Tree)
    ensures Sized(Plug(c, t)) <==> SizedCtx(c, Count(t)) && Sized(t)
  {
    if c.Down? {
      PlugSized(c.up, Make(c.dir, t, c.node, c.bal, c.size, c.other));
    }
  }

  lemma {:induction false} InorderLength(t: Tree)
    ensures |Inorder(t)| == Count(t)
  {
    if t.Bin? {
      InorderLength(t.left);
      InorderLength(t.right);
    }
  }

  lemma {:induction false} InorderFacts(t: Tree)
    ensures forall n :: n in Inorder(t) ==> n in Nodes(t)
    ensures forall n :: n in Nodes(t) ==> n in Inorder(t)
  {
    if t.Bin? {
      InorderFacts(t.left);
      InorderFacts(t.right);
    }
  }

  lemma {:induction false} CtxFacts(c: Ctx)
    ensures forall n :: n in PathNodes(c) ==> n in Spine(c)
    ensures forall n :: n in Spine(c) ==> n in PathNodes(c)
    ensures Spine(c) <= CtxNodes(c)
    ensures DistinctCtx(c) ==> forall i, j :: 0 <= i < j < Depth(c) ==> PathNodes(c)[i] != PathNodes(c)[j]
  {
    if c.Down? {
      CtxFacts(c.up);
    }
  }

  lemma {:induction false} ComposePaths(a: Ctx, b: Ctx)
    ensures PathNodes(Compose(a, b)) == PathNodes(a) + PathNodes(b)
    ensures PathDirs(Compose(a, b)) == PathDirs(a) + PathDirs(b)
    ensures Spine(Compose(a, b)) == Spine(a) + Spine(b)
    ensures Depth(Compose(a, b)) == Depth(a) + Depth(b)
  {
    if b.Down? {
      ComposePaths(a, b.up);
    }
  }

  lemma {:induction false} ComposeOrder(a: Ctx, b: Ctx)
    ensures Before(Compose(a, b)) == Before(a) + Before(b)
    ensures After(Compose(a, b)) == After(b) + After(a)
  {
    if b.Down? {
      ComposeOrder(a, b.up);
    }
  }

  lemma {:induction false} ComposeNodes(a: Ctx, b: Ctx)
    ensures CtxNodes(Compose(a, b)) == CtxNodes(a) + CtxNodes(b)
    ensures DistinctCtx(Compose(a, b)) <==> DistinctCtx(a) && DistinctCtx(b) && CtxNodes(a) !! CtxNodes(b)
  {
    if b.Down? {
      ComposeNodes(a, b.up);
    }
  }

  lemma {:induction false} ComposePlug(a: Ctx, b: Ctx, t: Tree)
    ensures Plug(Compose(a, b), t) == Plug(a, Plug(b, t))
  {
    if b.Down? {
      ComposePlug(a, b.up, Make(b.dir, t, b.node, b.bal, b.size, b.other));
    }
  }

  lemma {:induction false} ComposeFits(a: Ctx, b: Ctx, h: int)
    ensures Fits(Compose(a, b), h) <==> Fits(b, h) && Fits(a, Over(b, h))
    ensures Over(Compose(a, b), h) == Over(a, Over(b, h))
  {
    if b.Down? {
      ComposeFits(a, b.up, 1 + Max(h, Height(b.other)));
    }
  }

  lemma {:induction false} ComposeChanges(a: Ctx, b: Ctx, delta: int)
    ensures Resize(Compose(a, b), delta) == Compose(Resize(a, delta), Resize(b, delta))
    ensures Compose(Top, b) == b
  {
    if b.Down? {
      ComposeChanges(a, b.up, delta);
    }
  }

  lemma {:induction false} ResizePath(c: Ctx, delta: int)
    ensures PathNodes(Resize(c, delta)) == PathNodes(c) && PathBals(Resize(c, delta)) == PathBals(c)
    ensures PathDirs(Resize(c, delta)) == PathDirs(c)
    ensures |PathSizes(Resize(c, delta))| == Depth(c)
    ensures forall j :: 0 <= j < Depth(c) ==> PathSizes(Resize(c, delta))[j] == PathSizes(c)[j] + delta
  {
    if c.Down? {
      ResizePath(c.up, delta);
    }
  }

  lemma {:induction false} TiltPath(c: Ctx)
    ensures PathNodes(Tilt(c)) == PathNodes(c) && PathSizes(Tilt(c)) == PathSizes(c)
    ensures |PathBals(Tilt(c))| == Depth(c)
    ensures forall j :: 0 <= j < Depth(c) ==> PathBals(Tilt(c))[j] == PathBals(c)[j] - Lean(PathDirs(c)[j])
  {
    if c.Down? {
      TiltPath(c.up);
    }
  }

  /** Resizing and tilting change no node, no key and no shape. */
  lemma {:induction false} ChangeFacts(c: Ctx, delta: int)
    ensures PathNodes(Resize(c, delta)) == PathNodes(c) == PathNodes(Tilt(c))
    ensures PathDirs(Resize(c, delta)) == PathDirs(c) == PathDirs(Tilt(c))
    ensures Spine(Resize(c, delta)) == Spine(c) == Spine(Tilt(c))
    ensures CtxNodes(Resize(c, delta)) == CtxNodes(c) == CtxNodes(Tilt(c))
    ensures Before(Resize(c, delta)) == Before(c) == Before(Tilt(c))
    ensures After(Resize(c, delta)) == After(c) == After(Tilt(c))
    ensures DistinctCtx(Resize(c, delta)) == DistinctCtx(c) == DistinctCtx(Tilt(c))
    ensures Even(Resize(c, delta)) == Even(c)
  {
    if c.Down? {
      ChangeFacts(c.up, delta);
    }
  }

  lemma {:induction false} ResizeFits(c: Ctx, delta: int, h: int)
    ensures Fits(Resize(c, delta), h) == Fits(c, h)
    ensures Over(Resize(c, delta), h) == Over(c, h)
  {
    if c.Down? {
      ResizeFits(c.up, delta, 1 + Max(h, Height(c.other)));
    }
  }

  lemma {:induction false} ResizeSized(c: Ctx, delta: int, k: int)
    requires SizedCtx(c, k)
    ensures SizedCtx(Resize(c, delta), k + delta)
  {
    if c.Down? {
      ResizeSized(c.up, delta, c.size);
    }
  }

  /** A path of evenly balanced nodes gets one higher as a whole when its hole does. */
  lemma {:induction false} TiltGrows(c: Ctx, h: int)
    requires Even(c) && Fits(c, h)
    ensures Fits(Tilt(c), h + 1)
    ensures Over(Tilt(c), h + 1) == Over(c, h) + 1
  {
    if c.Down? {
      TiltGrows(c.up, h + 1);
    }
  }

  // ----- the order

  /** Three consecutive parts of an increasing sequence share no node. */
  lemma {:induction false} IncreasingParts(a: seq<Node>, n: Node, b: seq<Node>)
    requires Increasing(a + [n] + b)
    ensures Increasing(a) && Increasing(b)
    ensures n !in a && n !in b
    ensures forall x :: x in a ==> x !in b
  {
    var s := a + [n] + b;
    assert forall i :: 0 <= i < |a| ==> s[i] == a[i];
    assert forall i :: 0 <= i < |b| ==> b[i] == s[|a| + 1 + i];
    assert forall i, j :: 0 <= i < j < |s| ==> s[i] != s[j] by {
      forall i, j | 0 <= i < j < |s| ensures s[i] != s[j] {
        ScmpAntisymmetric(s[i].key, s[j].key);
      }
    }
    assert s[|a|] == n;
    forall i, j | 0 <= i < j < |b| ensures Scmp(b[i].key, b[j].key) < 0 {
      assert s[|a| + 1 + i] == b[i] && s[|a| + 1 + j] == b[j];
    }
    forall x | x in a ensures x !in b {
      var i :| 0 <= i < |a| && a[i] == x;
      assert s[i] == x;
    }
  }

  lemma {:induction false} IncreasingDistinct(t: Tree)
    requires Increasing(Inorder(t))
    ensures Distinct(t)
  {
    if t.Bin? {
      IncreasingParts(Inorder(t.left), t.node, Inorder(t.right));
      IncreasingDistinct(t.left);
      IncreasingDistinct(t.right);
      PartsApart(t.left, t.node, t.right);
    }
  }

  lemma {:induction false} PartsApart(l: Tree, n: Node, r: Tree)
    requires n !in Inorder(l) && n !in Inorder(r)
    requires forall x :: x in Inorder(l) ==> x !in Inorder(r)
    ensures n !in Nodes(l) && n !in Nodes(r) && Nodes(l) !! Nodes(r)
  {
    InorderFacts(l);
    InorderFacts(r);
    forall x | x in Nodes(l) ensures x !in Nodes(r) {
      assert x in Inorder(l);
    }
  }

  ghost predicate AllBelow(s: seq<Node>, k: bytes) {
    forall i :: 0 <= i < |s| ==> Scmp(s[i].key, k) < 0
  }

  ghost predicate AllAbove(s: seq<Node>, k: bytes) {
    forall i :: 0 <= i < |s| ==> Scmp(k, s[i].key) < 0
  }

  /** An increasing sequence around a middle part: everything left of it is below, everything right above. */
  lemma {:induction false} IncreasingMiddle(a: seq<Node>, n: Node, b: seq<Node>)
    requires Increasing(a + [n] + b)
    ensures AllBelow(a, n.key) && AllAbove(b, n.key)
    ensures Increasing(a + b)
  {
    var s := a + [n] + b;
    forall i | 0 <= i < |a| ensures Scmp(a[i].key, n.key) < 0 {
      assert s[i] == a[i] && s[|a|] == n;
    }
    forall i | 0 <= i < |b| ensures Scmp(n.key, b[i].key) < 0 {
      assert s[|a| + 1 + i] == b[i] && s[|a|] == n;
    }
    forall i, j | 0 <= i < j < |a + b| ensures Scmp((a + b)[i].key, (a + b)[j].key) < 0 {
      var i', j' := if i < |a| then i else i + 1, if j < |a| then j else j + 1;
      assert s[i'] == (a + b)[i] && s[j'] == (a + b)[j];
    }
  }

  lemma {:induction false} IncreasingPart(a: seq<Node>, m: seq<Node>, b: seq<Node>)
    requires Increasing(a + m + b)
    ensures Increasing(m)
  {
    var s := a + m + b;
    forall i, j | 0 <= i < j < |m| ensures Scmp(m[i].key, m[j].key) < 0 {
      assert s[|a| + i] == m[i] && s[|a| + j] == m[j];
    }
  }

  lemma {:induction false} IncreasingInsert(a: seq<Node>, n: Node, b: seq<Node>)
    requires Increasing(a + b) && AllBelow(a, n.key) && AllAbove(b, n.key)
    ensures Increasing(a + [n] + b)
  {
    var s, t := a + [n] + b, a + b;
    forall i, j | 0 <= i < j < |s| ensures Scmp(s[i].key, s[j].key) < 0 {
      if i != |a| && j != |a| {
        var i', j' := if i < |a| then i else i - 1, if j < |a| then j else j - 1;
        assert t[i'] == s[i] && t[j'] == s[j];
      }
    }
  }

  /** Below a node that is below k, everything is below k; and the mirror image. */
  lemma {:induction false} BelowTransitive(a: seq<Node>, n: Node, k: bytes)
    requires AllBelow(a, n.key) && Scmp(n.key, k) < 0
    ensures AllBelow(a + [n], k)
  {
    forall i | 0 <= i < |a| ensures Scmp(a[i].key, k) < 0 {
      ScmpTransitive(a[i].key, n.key, k);
    }
  }

  lemma {:induction false} AboveTransitive(n: Node, b: seq<Node>, k: bytes)
    requires AllAbove(b, n.key) && Scmp(k, n.key) < 0
    ensures AllAbove([n] + b, k)
  {
    forall i | 0 <= i < |b| ensures Scmp(k, b[i].key) < 0 {
      ScmpTransitive(k, n.key, b[i].key);
    }
  }

  /** How many elements have a key at most k. */
  ghost function NumAtMost(s: seq<Node>, k: bytes): nat {
    if s == [] then 0
    else NumAtMost(s[..|s| - 1], k) + (if Scmp(s[|s| - 1].key, k) <= 0 then 1 else 0)
  }

  lemma {:induction false} NumAtMostSplit(a: seq<Node>, b: seq<Node>, k: bytes)
    requires forall i :: 0 <= i < |a| ==> Scmp(a[i].key, k) <= 0
    requires AllAbove(b, k)
    ensures NumAtMost(a + b, k) == |a|
    decreases |a| + |b|
  {
    var s := a + b;
    if b != [] {
      var b' := b[..|b| - 1];
      assert s[..|s| - 1] == a + b';
      NumAtMostSplit(a, b', k);
      ScmpAntisymmetric(k, b[|b| - 1].key);
    } else if a != [] {
      var a' := a[..|a| - 1];
      assert s[..|s| - 1] == a' + [];
      NumAtMostSplit(a', [], k);
    }
  }

  /** Comparing k with one element of an increasing sequence says where all the others lie. */
  lemma {:induction false} CompareMiddle(a: seq<Node>, n: Node, b: seq<Node>, k: bytes)
    requires Increasing(a + [n] + b)
    ensures Scmp(k, n.key) > 0 ==> AllBelow(a + [n], k)
    ensures Scmp(k, n.key) < 0 ==> AllAbove([n] + b, k)
    ensures Scmp(k, n.key) == 0 ==> NumAtMost(a + [n] + b, k) == |a| + 1
  {
    IncreasingMiddle(a, n, b);
    ScmpAntisymmetric(k, n.key);
    if Scmp(k, n.key) > 0 {
      BelowTransitive(a, n, k);
    } else if Scmp(k, n.key) < 0 {
      AboveTransitive(n, b, k);
    } else {
      assert forall i :: 0 <= i < |a + [n]| ==> Scmp((a + [n])[i].key, k) <= 0;
      NumAtMostSplit(a + [n], b, k);
    }
  }

  lemma {:induction false} KeyAbsent(a: seq<Node>, b: seq<Node>, k: bytes)
    requires AllBelow(a, k) && AllAbove(b, k)
    ensures forall n :: n in a + b ==> n.key != k
    ensures NumAtMost(a + b, k) == |a|
  {
    NumAtMostSplit(a, b, k);
    forall n | n in a + b ensures n.key != k {
      ScmpAntisymmetric(k, k);
      var i :| 0 <= i < |a + b| && (a + b)[i] == n;
      assert if i < |a| then n == a[i] else n == b[i - |a|];
    }
  }

  // ----- rotations

  /** The child on the far side becomes the root and t its child; the subtree between changes sides. Balance bytes stay. */
  ghost function Rotated1(t: Tree, d: Side): Tree
    requires t.Bin? && Kid(t, 1 - d).Bin?
  {
    var q := Kid(t, 1 - d);
    var p' := Make(d, Kid(t, d), t.node, t.bal, t.size - (q.size - SizeOf(Kid(q, d))), Kid(q, d));
    Make(d, p', q.node, q.bal, t.size, Kid(q, 1 - d))
  }

  /** The inner grandchild becomes the root, above t and its child, which share its subtrees; all three balance bytes are set. */
  ghost function Rotated2(t: Tree, d: Side): Tree
    requires t.Bin? && Kid(t, 1 - d).Bin? && Kid(Kid(t, 1 - d), d).Bin?
  {
    var q := Kid(t, 1 - d);
    var r := Kid(q, d);
    var b1 := Lean(d);
    var sizeX := SizeOf(Kid(r, d));
    var p' := Make(d, Kid(t, d), t.node, if r.bal == b1 then -b1 else 0, t.size - (q.size - sizeX), Kid(r, d));
    var q' := Make(d, Kid(r, 1 - d), q.node, if r.bal == b1 || r.bal == 0 then 0 else b1,
                   q.size - (sizeX + 1), Kid(q, 1 - d));
    Make(d, p', r.node, 0, t.size, q')
  }

  /** t with the balance bytes of the root and of its child on side d replaced. */
  ghost function Rebalanced(t: Tree, d: Side, root: int, child: int): Tree
    requires t.Bin? && Kid(t, d).Bin?
  {
    var k := Kid(t, d);
    Make(d, k.(bal := child), t.node, root, t.size, Kid(t, 1 - d))
  }

  /** A single rotation keeps the order, the nodes and right sizes. */
  lemma {:induction false} RotationKeeps(t: Tree, d: Side)
    requires t.Bin? && Kid(t, 1 - d).Bin?
    ensures Inorder(Rotated1(t, d)) == Inorder(t) && Nodes(Rotated1(t, d)) == Nodes(t)
    ensures Count(Rotated1(t, d)) == Count(t)
    ensures Sized(t) ==> Sized(Rotated1(t, d))
  {
    var q := Kid(t, 1 - d);
    SizeIsCount(Kid(q, d));
    SizeIsCount(q);
    if d == 0 {
      assert Inorder(t) == Inorder(t.left) + [t.node] + (Inorder(q.left) + [q.node] + Inorder(q.right));
    } else {
      assert Inorder(t) == Inorder(q.left) + [q.node] + Inorder(q.right) + [t.node] + Inorder(t.right);
    }
  }

  lemma {:induction false} Regroup4<T>(a: seq<T>, b: seq<T>, c: seq<T>, d: seq<T>)
    ensures (a + b) + c + d == a + b + (c + d)
    ensures (a + b + c) + d == a + b + (c + d)
  {
  }

  lemma {:induction false} Regroup5<T>(a: seq<T>, b: seq<T>, x: T, c: seq<T>, d: seq<T>)
    ensures a + (b + [x] + c) + d == (a + b) + [x] + (c + d) == (a + b + [x]) + c + d
    ensures [x] + (c + d) == [x] + c + d
  {
  }

  lemma {:induction false} Regroup<T>(a: seq<T>, x: T, b: seq<T>, y: T, c: seq<T>, z: T, e: seq<T>)
    ensures a + [x] + (b + [y] + c + [z] + e) == (a + [x] + b) + [y] + (c + [z] + e)
    ensures (a + [x] + (b + [y] + c)) + [z] + e == (a + [x] + b) + [y] + (c + [z] + e)
  {
  }

  lemma {:induction false} DoubleRotationOrder(t: Tree, d: Side)
    requires t.Bin? && Kid(t, 1 - d).Bin? && Kid(Kid(t, 1 - d), d).Bin?
    ensures Inorder(Rotated2(t, d)) == Inorder(t)
  {
    var q := Kid(t, 1 - d);
    var r := Kid(q, d);
    var a, b, c, e := Inorder(Kid(t, d)), Inorder(r.left), Inorder(r.right), Inorder(Kid(q, 1 - d));
    var u := Rotated2(t, d);
    assert Inorder(r) == b + [r.node] + c;
    if d == 0 {
      Regroup(a, t.node, b, r.node, c, q.node, e);
      assert Inorder(u.left) == a + [t.node] + b && Inorder(u.right) == c + [q.node] + e;
      assert Inorder(q) == b + [r.node] + c + [q.node] + e;
    } else {
      Regroup(e, q.node, b, r.node, c, t.node, a);
      assert Inorder(u.left) == e + [q.node] + b && Inorder(u.right) == c + [t.node] + a;
      assert Inorder(q) == e + [q.node] + (b + [r.node] + c);
    }
  }

  lemma {:induction false} DoubleRotationNodes(t: Tree, d: Side)
    requires t.Bin? && Kid(t, 1 - d).Bin? && Kid(Kid(t, 1 - d), d).Bin?
    ensures Nodes(Rotated2(t, d)) == Nodes(t)
  {
    var q := Kid(t, 1 - d);
    var r := Kid(q, d);
    var u := Rotated2(t, d);
    assert Nodes(u.left) == Nodes(u.left.left) + {u.left.node} + Nodes(u.left.right);
    assert Nodes(u.right) == Nodes(u.right.left) + {u.right.node} + Nodes(u.right.right);
    assert Nodes(q) == Nodes(q.left) + {q.node} + Nodes(q.right);
    assert Nodes(r) == Nodes(r.left) + {r.node} + Nodes(r.right);
  }

  lemma {:induction false} DoubleRotationSizes(t: Tree, d: Side)
    requires t.Bin? && Kid(t, 1 - d).Bin? && Kid(Kid(t, 1 - d), d).Bin?
    ensures Count(Rotated2(t, d)) == Count(t)
    ensures Sized(t) ==> Sized(Rotated2(t, d))
  {
    var q := Kid(t, 1 - d);
    var r := Kid(q, d);
    SizeIsCount(Kid(r, d));
    assert Count(q) == Count(Kid(q, 0)) + 1 + Count(Kid(q, 1));
    assert Count(r) == Count(r.left) + 1 + Count(r.right);
    if Sized(t) {
      assert Sized(q) && Sized(r) && Sized(Kid(q, 1 - d)) && Sized(r.left) && Sized(r.right);
      var u := Rotated2(t, d);
      assert Sized(Kid(u, d));
      assert Sized(Kid(u, 1 - d));
    }
  }

  /** A double rotation keeps the order, the nodes and right sizes. */
  lemma {:induction false} DoubleRotationKeeps(t: Tree, d: Side)
    requires t.Bin? && Kid(t, 1 - d).Bin? && Kid(Kid(t, 1 - d), d).Bin?
    ensures Inorder(Rotated2(t, d)) == Inorder(t) && Nodes(Rotated2(t, d)) == Nodes(t)
    ensures Count(Rotated2(t, d)) == Count(t)
    ensures Sized(t) ==> Sized(Rotated2(t, d))
  {
    DoubleRotationOrder(t, d);
    DoubleRotationNodes(t, d);
    DoubleRotationSizes(t, d);
  }

  /** The nodes a rotation rewrites lie outside the subtrees it moves. */
  lemma {:induction false} SingleParts(t: Tree, d: Side)
    requires t.Bin? && Kid(t, 1 - d).Bin? && Distinct(t)
    ensures t.node != Kid(t, 1 - d).node
    ensures t.node !in Nodes(Kid(t, d)) && Kid(t, 1 - d).node !in Nodes(Kid(t, d))
    ensures {t.node, Kid(t, 1 - d).node} !! Nodes(Kid(Kid(t, 1 - d), d))
    ensures {t.node, Kid(t, 1 - d).node} !! Nodes(Kid(Kid(t, 1 - d), 1 - d))
    ensures Distinct(Kid(t, 1 - d))
  {
    var q := Kid(t, 1 - d);
    assert Nodes(q) == Nodes(Kid(q, 0)) + {q.node} + Nodes(Kid(q, 1));
  }

  lemma {:induction false} DoubleParts(t: Tree, d: Side)
    requires t.Bin? && Kid(t, 1 - d).Bin? && Kid(Kid(t, 1 - d), d).Bin? && Distinct(t)
    ensures var q := Kid(t, 1 - d); var r := Kid(q, d); var three := {t.node, q.node, r.node};
            && t.node != q.node && q.node != r.node && r.node != t.node
            && three !! Nodes(Kid(t, d)) && three !! Nodes(Kid(r, d))
            && three !! Nodes(Kid(r, 1 - d)) && three !! Nodes(Kid(q, 1 - d))
  {
    var q := Kid(t, 1 - d);
    var r := Kid(q, d);
    SingleParts(t, d);
    SingleParts(q, 1 - d);
    assert r.node in Nodes(r) && Nodes(r) <= Nodes(q);
    assert Nodes(Kid(r, d)) <= Nodes(r) && Nodes(Kid(r, 1 - d)) <= Nodes(r) && Nodes(Kid(q, 1 - d)) <= Nodes(q);
  }

  lemma {:induction false} SizeIsCount(t: Tree)
    ensures Sized(t) ==> SizeOf(t) == Count(t)
  {
  }

  /** Balanced but for the root, whose side 1-d is two higher than side d. */
  ghost predicate Overweight(t: Tree, d: Side) {
    && t.Bin? && Kid(t, 1 - d).Bin?
    && Balanced(Kid(t, 0)) && Balanced(Kid(t, 1))
    && Height(Kid(t, 1 - d)) == Height(Kid(t, d)) + 2
  }

  /** The single rotation, with the balance bytes its two callers set. */
  lemma {:induction false} SingleRotation(t: Tree, d: Side)
    requires Overweight(t, d)
    ensures Kid(t, 1 - d).bal == Lean(d) ==>
              && Balanced(Rebalanced(Rotated1(t, d), d, 0, 0))
              && Height(Rotated1(t, d)) == Height(Kid(t, d)) + 2
    ensures Kid(t, 1 - d).bal == 0 ==>
              && Balanced(Rebalanced(Rotated1(t, d), d, -Lean(d), Lean(d)))
              && Height(Rotated1(t, d)) == Height(Kid(t, d)) + 3
  {
  }

  lemma {:induction false} DoubleRotation(t: Tree, d: Side)
    requires Overweight(t, d) && Kid(t, 1 - d).bal == -Lean(d)
    ensures Kid(Kid(t, 1 - d), d).Bin?
    ensures Balanced(Rotated2(t, d))
    ensures Height(Rotated2(t, d)) == Height(Kid(t, d)) + 2
  {
    var q := Kid(t, 1 - d);
    var r := Kid(q, d);
    assert Height(r) == Height(Kid(q, 1 - d)) + 1;
    assert Balanced(r) && Height(r) == 1 + Max(Height(r.left), Height(r.right));
    assert Balanced(r.left) && Balanced(r.right);
  }

  // ----- insertion on trees

  /** c leads from the root of t to the empty place where key k belongs. */
  ghost predicate SlotFor(t: Tree, c: Ctx, k: bytes) {
    t == Plug(c, Nil) && AllBelow(Before(c), k) && AllAbove(After(c), k)
  }

  /** seg starts at the deepest node above the hole that is out of balance, or at the root. */
  ghost predicate DeepestUneven(bc: Ctx, seg: Ctx) {
    && EvenBelow(seg)
    && (seg.Down? && bc.Down? ==> Outermost(seg).bal != 0)
    && (seg.Top? ==> bc.Top?)
  }

  /** The frames below the outermost one. */
  ghost function Inner(c: Ctx): Ctx
    requires c.Down?
  {
    if c.up.Top? then Top else Down(Inner(c.up), c.dir, c.node, c.bal, c.size, c.other)
  }

  lemma {:induction false} SplitOutermost(c: Ctx)
    requires c.Down?
    ensures c == Compose(Outermost(c), Inner(c)) && Outermost(c).up.Top?
    ensures EvenBelow(c) ==> Even(Inner(c))
  {
    if c.up.Down? {
      SplitOutermost(c.up);
    }
  }

  lemma {:induction false} ComposeTilt(a: Ctx, b: Ctx)
    ensures Tilt(Compose(a, b)) == Compose(Tilt(a), Tilt(b))
  {
    if b.Down? {
      ComposeTilt(a, b.up);
    }
  }

  /** The root of a plugged tree is the outermost frame. */
  lemma {:induction false} PlugRoot(c: Ctx, t: Tree)
    requires c.Down?
    ensures Plug(c, t).Bin?
    ensures Plug(c, t).node == Outermost(c).node && Plug(c, t).bal == Outermost(c).bal
  {
    if c.up.Down? {
      PlugRoot(c.up, Make(c.dir, t, c.node, c.bal, c.size, c.other));
    }
  }

  /** The grown subtree below the repair point is out of balance at its root, unless it is the new leaf. */
  lemma {:induction false} GrownRoot(c: Ctx, delta: int)
    requires c.Down? && Even(c)
    ensures Tilt(Resize(c, delta)).Down?
    ensures Outermost(Tilt(Resize(c, delta))).bal == -1 || Outermost(Tilt(Resize(c, delta))).bal == 1
  {
    if c.up.Down? {
      GrownRoot(c.up, delta);
    }
  }

  lemma {:induction false} TiltContent(c: Ctx, t: Tree, t': Tree)
    requires Count(t) == Count(t') && Sized(t) == Sized(t')
    ensures Count(Plug(Tilt(c), t')) == Count(Plug(c, t))
    ensures Sized(Plug(Tilt(c), t')) == Sized(Plug(c, t))
  {
    if c.Down? {
      TiltContent(c.up, Make(c.dir, t, c.node, c.bal, c.size, c.other),
                  Make(c.dir, t', c.node, c.bal - Lean(c.dir), c.size, c.other));
    }
  }

  ghost function Leaf(x: Node): Tree {
    Bin(Nil, x, 0, 1, Nil)
  }

  /** The subtree at the repair point with the new leaf in, before any rotation. */
  ghost function Grown(seg: Ctx, x: Node): Tree {
    Plug(Tilt(Resize(seg, 1)), Leaf(x))
  }

  /** The rotation of kavl_insert applies: the sides it looks at exist. */
  ghost predicate CanRotate(u: Tree, w: Side) {
    && u.Bin? && Kid(u, 1 - w).Bin?
    && (Kid(u, 1 - w).bal != Lean(w) ==> Kid(Kid(u, 1 - w), w).Bin?)
  }

  /** The rotation kavl_insert does at the repair point, away from side w. */
  ghost function Repaired(u: Tree, w: Side): Tree
    requires CanRotate(u, w)
  {
    if Kid(u, 1 - w).bal == Lean(w) then Rebalanced(Rotated1(u, w), w, 0, 0) else Rotated2(u, w)
  }

  lemma {:induction false} RepairContent(u: Tree, w: Side)
    requires CanRotate(u, w)
    ensures Inorder(Repaired(u, w)) == Inorder(u)
    ensures Count(Repaired(u, w)) == Count(u)
    ensures Sized(u) ==> Sized(Repaired(u, w))
  {
    if Kid(u, 1 - w).bal == Lean(w) {
      RotationKeeps(u, w);
    } else {
      DoubleRotationKeeps(u, w);
    }
  }

  /** The part of the grown subtree on the side of the new leaf. */
  ghost function GrownSide(seg: Ctx, x: Node): Tree
    requires seg.Down?
  {
    Plug(Tilt(Resize(Inner(seg), 1)), Leaf(x))
  }

  /** v is one higher than the h the balance byte of frame o still counts with. */
  ghost predicate Outgrown(o: Ctx, v: Tree, h: int) {
    && h >= 0 && v.Bin? && Balanced(v) && Height(v) == h + 1 && (v.bal == 0 ==> h == 0)
    && o.Down? && o.bal == LeanBy(o.dir, Height(o.other) - h) && -1 <= o.bal <= 1 && Balanced(o.other)
  }

  lemma {:induction false} GrownSideFacts(seg: Ctx, x: Node)
    requires seg.Down? && EvenBelow(seg) && Fits(seg, 0)
    ensures Outgrown(Outermost(seg), GrownSide(seg, x), Over(Inner(seg), 0))
    ensures Over(seg, 0) == 1 + Max(Over(Inner(seg), 0), Height(Outermost(seg).other))
  {
    var o, low := Outermost(seg), Inner(seg);
    SplitOutermost(seg);
    ComposeFits(o, low, 0);
    TiltGrows(low, 0);
    var low' := Tilt(Resize(low, 1));
    TiltResize(low, 1);
    ResizeFits(Tilt(low), 1, 1);
    PlugBalanced(low', Leaf(x));
    PlugBalanced(low, Nil);
    if low.Down? {
      GrownRoot(low, 1);
      PlugRoot(low', Leaf(x));
    }
  }

  lemma {:induction false} GrownShape(seg: Ctx, x: Node)
    requires seg.Down?
    ensures var o := Outermost(seg);
            Grown(seg, x) == Make(o.dir, GrownSide(seg, x), o.node, o.bal - Lean(o.dir), o.size + 1, o.other)
  {
    var o, low := Outermost(seg), Inner(seg);
    SplitOutermost(seg);
    ComposeChanges(o, low, 1);
    ComposeTilt(Resize(o, 1), Resize(low, 1));
    ComposePlug(Tilt(Resize(o, 1)), Tilt(Resize(low, 1)), Leaf(x));
  }

  lemma {:induction false} MakeOneHigher(d: Side, v: Tree, n: Node, b: int, s: int, o: Tree, h: nat)
    requires v.Bin? && Balanced(v) && Height(v) == h + 1 && (v.bal == 0 ==> h == 0)
    requires b == LeanBy(d, Height(o) - h) && -1 <= b <= 1 && Balanced(o)
    ensures OneHigher(Make(d, v, n, b - Lean(d), s, o), d, b, h)
    ensures Height(Kid(Make(d, v, n, b - Lean(d), s, o), 1 - d)) == Height(o)
    ensures Make(d, v, n, b - Lean(d), s, o).node == n
  {
    if d == 0 {
    } else {
    }
  }

  ghost predicate Repairable(u: Tree) {
    u.Bin? && (u.bal == 2 ==> CanRotate(u, 0)) && (u.bal == -2 ==> CanRotate(u, 1))
  }

  /** The last part of kavl_insert: a rotation where the balance byte has left -1..1. */
  ghost function Repair(u: Tree): Tree
    requires Repairable(u)
  {
    if u.bal == 2 then Repaired(u, 0) else if u.bal == -2 then Repaired(u, 1) else u
  }

  /** The side dir of u got one higher than it was (h); u had balance b and its balance byte has been moved. */
  ghost predicate OneHigher(u: Tree, dir: Side, b: int, h: nat) {
    && u.Bin? && u.bal == b - Lean(dir) && -1 <= b <= 1
    && b == LeanBy(dir, Height(Kid(u, 1 - dir)) - h)
    && Kid(u, dir).Bin? && Balanced(Kid(u, dir)) && Height(Kid(u, dir)) == h + 1
    && (Kid(u, dir).bal == 0 ==> h == 0)
    && Balanced(Kid(u, 1 - dir))
  }

  lemma {:induction false} RepairBalance(u: Tree, dir: Side, b: int, h: nat)
    requires OneHigher(u, dir, b, h)
    ensures Repairable(u) && Balanced(Repair(u))
    ensures b != 0 ==> Height(Repair(u)) == 1 + Max(h, Height(Kid(u, 1 - dir)))
  {
    var v, o := Kid(u, dir), Kid(u, 1 - dir);
    if u.bal == 2 || u.bal == -2 {
      var w: Side := 1 - dir;
      assert Height(o) == h - 1;
      assert Overweight(u, w);
      SingleRotation(u, w);
      if v.bal != Lean(w) {
        DoubleRotation(u, w);
      }
    } else {
      assert Height(u) == 1 + Max(Height(v), Height(o));
    }
  }

  lemma {:induction false} RepairMake(o: Ctx, v: Tree, h: int, u: Tree)
    requires Outgrown(o, v, h)
    requires u == Make(o.dir, v, o.node, o.bal - Lean(o.dir), o.size + 1, o.other)
    ensures u.Bin? && u.node == o.node && -2 <= u.bal <= 2
    ensures Repairable(u) && Balanced(Repair(u))
    ensures o.bal != 0 ==> Height(Repair(u)) == 1 + Max(h, Height(o.other))
  {
    MakeOneHigher(o.dir, v, o.node, o.bal, o.size + 1, o.other, h);
    RepairBalance(u, o.dir, o.bal, h);
  }

  /** What growing the segment does to the balance of its root. */
  lemma {:induction false} GrownBalance(seg: Ctx, x: Node)
    requires seg.Down? && EvenBelow(seg) && Fits(seg, 0)
    ensures Grown(seg, x).Bin? && Grown(seg, x).node == Outermost(seg).node
    ensures -2 <= Grown(seg, x).bal <= 2
    ensures Repairable(Grown(seg, x)) && Balanced(Repair(Grown(seg, x)))
    ensures Outermost(seg).bal != 0 ==> Height(Repair(Grown(seg, x))) == Over(seg, 0)
  {
    GrownSideFacts(seg, x);
    GrownShape(seg, x);
    var o, h, u := Outermost(seg), Over(Inner(seg), 0), Grown(seg, x);
    RepairMake(o, GrownSide(seg, x), h, u);
  }

  lemma {:induction false} TiltResize(c: Ctx, delta: int)
    ensures Tilt(Resize(c, delta)) == Resize(Tilt(c), delta)
  {
    if c.Down? {
      TiltResize(c.up, delta);
    }
  }

  /** The whole tree after kavl_insert has put x into the slot. */
  ghost function Inserted(bc: Ctx, seg: Ctx, x: Node): Tree
    requires Repairable(Grown(seg, x))
  {
    Plug(Resize(bc, 1), Repair(Grown(seg, x)))
  }

  /** Repairing only at the deepest uneven ancestor leaves the whole tree valid, with x in its place. */
  lemma {:induction false} InsertedValid(tree: Tree, bc: Ctx, seg: Ctx, x: Node)
    requires Valid(tree) && seg.Down?
    requires SlotFor(tree, Compose(bc, seg), x.key) && DeepestUneven(bc, seg)
    ensures Repairable(Grown(seg, x))
    ensures Valid(Inserted(bc, seg, x))
    ensures Inorder(Inserted(bc, seg, x)) == Before(Compose(bc, seg)) + [x] + After(Compose(bc, seg))
  {
    InsertedBalanced(tree, bc, seg, x);
    InsertedSized(tree, bc, seg, x);
    InsertedOrder(bc, seg, x);
    var c := Compose(bc, seg);
    PlugOrder(c, Nil);
    assert Inorder(tree) == Before(c) + After(c);
    IncreasingInsert(Before(c), x, After(c));
  }

  lemma {:induction false} InsertedBalanced(tree: Tree, bc: Ctx, seg: Ctx, x: Node)
    requires Balanced(tree) && seg.Down? && tree == Plug(Compose(bc, seg), Nil) && DeepestUneven(bc, seg)
    ensures Repairable(Grown(seg, x))
    ensures Balanced(Inserted(bc, seg, x))
  {
    PlugBalanced(Compose(bc, seg), Nil);
    ComposeFits(bc, seg, 0);
    GrownBalance(seg, x);
    ResizeFits(bc, 1, Over(seg, 0));
    PlugBalanced(Resize(bc, 1), Repair(Grown(seg, x)));
  }

  lemma {:induction false} RepairKeeps(u: Tree)
    requires Repairable(u)
    ensures Inorder(Repair(u)) == Inorder(u)
    ensures Count(Repair(u)) == Count(u)
    ensures Sized(u) ==> Sized(Repair(u))
  {
    if u.bal == 2 { RepairContent(u, 0); }
    if u.bal == -2 { RepairContent(u, 1); }
  }

  lemma {:induction false} InsertedSized(tree: Tree, bc: Ctx, seg: Ctx, x: Node)
    requires Sized(tree) && tree == Plug(Compose(bc, seg), Nil) && Repairable(Grown(seg, x))
    ensures Sized(Inserted(bc, seg, x))
  {
    RepairKeeps(Grown(seg, x));
    GrownSizes(tree, bc, seg, x);
    PlugSized(Resize(bc, 1), Repair(Grown(seg, x)));
  }

  lemma {:induction false} GrownOrder(seg: Ctx, x: Node)
    ensures Inorder(Grown(seg, x)) == Before(seg) + [x] + After(seg)
  {
    ChangeFacts(seg, 1);
    ChangeFacts(Resize(seg, 1), 0);
    PlugOrder(Tilt(Resize(seg, 1)), Leaf(x));
    assert Inorder(Leaf(x)) == [x];
  }

  lemma {:induction false} InsertedOrder(bc: Ctx, seg: Ctx, x: Node)
    requires Repairable(Grown(seg, x))
    ensures Inorder(Inserted(bc, seg, x)) == Before(Compose(bc, seg)) + [x] + After(Compose(bc, seg))
  {
    RepairKeeps(Grown(seg, x));
    GrownOrder(seg, x);
    ChangeFacts(bc, 1);
    ComposeOrder(bc, seg);
    PlugOrder(Resize(bc, 1), Repair(Grown(seg, x)));
    Regroup5(Before(bc), Before(seg), x, After(seg), After(bc));
  }

  lemma {:induction false} GrownSizes(tree: Tree, bc: Ctx, seg: Ctx, x: Node)
    requires Sized(tree) && tree == Plug(Compose(bc, seg), Nil)
    ensures Sized(Grown(seg, x)) && SizedCtx(Resize(bc, 1), Count(Grown(seg, x)))
  {
    var c := Compose(bc, seg);
    PlugSized(c, Nil);
    ResizeSized(c, 1, 0);
    PlugSized(Resize(c, 1), Leaf(x));
    ComposeChanges(bc, seg, 1);
    ComposePlug(Resize(bc, 1), Resize(seg, 1), Leaf(x));
    PlugSized(Resize(bc, 1), Plug(Resize(seg, 1), Leaf(x)));
    TiltContent(Resize(seg, 1), Leaf(x), Leaf(x));
  }

  // ----- erasure on trees

  /**
   An erasure on its way up: the tree is c with u in its hole, u is valid but one lower
   than the balance bytes along c still claim, and the sizes are already right.
   */
  ghost predicate Hollow(c: Ctx, u: Tree) {
    && Fits(c, Height(u) + 1) && Balanced(u)
    && SizedCtx(c, Count(u)) && Sized(u)
  }

  /** r is the least node of R, and sc the way down to it. */
  ghost predicate LeastAt(sc: Ctx, r: Tree) {
    r.Bin? && r.left.Nil? && AllLeft(sc)
  }

  ghost predicate AllLeft(c: Ctx) {
    c.Down? ==> c.dir == 0 && AllLeft(c.up)
  }

  /** The path after a node with right subtree was replaced by its successor r. */
  ghost function SplicedPath(c: Ctx, sub: Tree, sc: Ctx, r: Tree): Ctx
    requires sub.Bin? && r.Bin?
  {
    Compose(Down(Resize(c, -1), 1, r.node, sub.bal, sub.size - 1, sub.left), Resize(sc, -1))
  }

  /** Splicing out a node without right subtree. */
  lemma {:induction false} SpliceLeft(c: Ctx, sub: Tree)
    requires Balanced(Plug(c, sub)) && Sized(Plug(c, sub)) && sub.Bin? && sub.right.Nil?
    ensures Hollow(Resize(c, -1), sub.left)
  {
    PlugBalanced(c, sub);
    PlugSized(c, sub);
    ResizeFits(c, -1, Height(sub));
    ResizeSized(c, -1, Count(sub));
  }

  /** Splicing in the successor. */
  lemma {:induction false} SpliceSuccessor(c: Ctx, sub: Tree, sc: Ctx, r: Tree)
    requires Balanced(Plug(c, sub)) && Sized(Plug(c, sub))
    requires sub.Bin? && sub.right == Plug(sc, r) && LeastAt(sc, r)
    ensures Hollow(SplicedPath(c, sub, sc, r), r.right)
  {
    PlugBalanced(c, sub);
    PlugSized(c, sub);
    PlugBalanced(sc, r);
    PlugSized(sc, r);
    SpliceBalance(c, sub, sc, r);
    SpliceSizes(c, sub, sc, r);
  }

  /** The frame of the successor, in the place of the spliced-out node, expects what is now to its right. */
  lemma {:induction false} SuccessorFits(c: Ctx, sub: Tree, n: Node, top: Ctx)
    requires sub.Bin? && Fits(c, Height(sub)) && Balanced(sub)
    requires top == Down(Resize(c, -1), 1, n, sub.bal, sub.size - 1, sub.left)
    ensures Fits(top, Height(sub.right))
  {
    ResizeFits(c, -1, Height(sub));
    assert Height(sub) == 1 + Max(Height(sub.left), Height(sub.right));
    FitsDown(top, Height(sub.right), Height(sub));
  }

  lemma {:induction false} SpliceBalance(c: Ctx, sub: Tree, sc: Ctx, r: Tree)
    requires sub.Bin? && Fits(c, Height(sub)) && Balanced(sub)
    requires LeastAt(sc, r) && Fits(sc, Height(r)) && Balanced(r) && Over(sc, Height(r)) == Height(sub.right)
    ensures Fits(SplicedPath(c, sub, sc, r), Height(r.right) + 1) && Balanced(r.right)
  {
    var top := Down(Resize(c, -1), 1, r.node, sub.bal, sub.size - 1, sub.left);
    assert Fits(top, Height(sub.right)) by {
      SuccessorFits(c, sub, r.node, top);
    }
    ResizeFits(sc, -1, Height(r));
    ComposeFits(top, Resize(sc, -1), Height(r));
    assert Height(r) == Height(r.right) + 1;
  }

  lemma {:induction false} FitsDown(c: Ctx, h: int, up: int)
    requires c.Down? && Fits(c.up, up) && up == 1 + Max(h, Height(c.other))
    requires c.bal == LeanBy(c.dir, Height(c.other) - h) && -1 <= c.bal <= 1 && Balanced(c.other)
    ensures Fits(c, h)
  {
  }

  lemma {:induction false} SpliceSizes(c: Ctx, sub: Tree, sc: Ctx, r: Tree)
    requires sub.Bin? && SizedCtx(c, Count(sub)) && Sized(sub)
    requires LeastAt(sc, r) && SizedCtx(sc, Count(r)) && Sized(r) && sub.right == Plug(sc, r)
    ensures SizedCtx(SplicedPath(c, sub, sc, r), Count(r.right)) && Sized(r.right)
  {
    var top := Down(Resize(c, -1), 1, r.node, sub.bal, sub.size - 1, sub.left);
    ResizeSized(c, -1, Count(sub));
    ResizeSized(sc, -1, Count(r));
    PlugCount(sc, r);
    SizedCompose(top, Resize(sc, -1), Count(r.right));
    SizedCompose(Top, sc, 0);
  }

  ghost function SideCount(c: Ctx): nat {
    if c.Top? then 0 else SideCount(c.up) + 1 + Count(c.other)
  }

  lemma {:induction false} PlugCount(c: Ctx, t: Tree)
    ensures Count(Plug(c, t)) == Count(t) + SideCount(c)
  {
    if c.Down? {
      PlugCount(c.up, Make(c.dir, t, c.node, c.bal, c.size, c.other));
    }
  }

  lemma {:induction false} SizedCompose(a: Ctx, b: Ctx, k: int)
    ensures SizedCtx(Compose(a, b), k) <==> SizedCtx(b, k) && SizedCtx(a, k + SideCount(b))
    ensures SideCount(Resize(b, -1)) == SideCount(b)
  {
    if b.Down? {
      SizedCompose(a, b.up, k + 1 + Count(b.other));
    }
  }

  lemma {:induction false} AllLeftBefore(c: Ctx)
    requires AllLeft(c)
    ensures Before(c) == []
  {
    if c.Down? {
      AllLeftBefore(c.up);
    }
  }

  /** Around the slot of the successor lies what lay around it and the erased node. */
  lemma {:induction false} SplicedAround(c: Ctx, sub: Tree, sc: Ctx, r: Tree)
    requires sub.Bin? && LeastAt(sc, r)
    ensures Before(SplicedPath(c, sub, sc, r)) == Before(c) + Inorder(sub.left) + [r.node] + []
    ensures After(SplicedPath(c, sub, sc, r)) == After(sc) + After(c)
  {
    var top := Down(Resize(c, -1), 1, r.node, sub.bal, sub.size - 1, sub.left);
    ChangeFacts(c, -1);
    ChangeFacts(sc, -1);
    ComposeOrder(top, Resize(sc, -1));
    AllLeftBefore(sc);
  }

  lemma {:induction false} LeastFirst(sc: Ctx, r: Tree)
    requires LeastAt(sc, r)
    ensures Inorder(Plug(sc, r)) == [r.node] + Inorder(r.right) + After(sc)
  {
    AllLeftBefore(sc);
    PlugOrder(sc, r);
    assert Inorder(r) == [r.node] + Inorder(r.right);
  }

  /** Splicing in the successor takes exactly the erased node out of the order. */
  lemma {:induction false} SpliceOrder(c: Ctx, sub: Tree, sc: Ctx, r: Tree)
    requires sub.Bin? && sub.right == Plug(sc, r) && LeastAt(sc, r)
    ensures var c' := SplicedPath(c, sub, sc, r);
            Before(c') + Inorder(r.right) + After(c') ==
            Before(c) + Inorder(sub.left) + (Inorder(sub.right) + After(c))
  {
    SplicedAround(c, sub, sc, r);
    assert Inorder(sub.right) == [r.node] + Inorder(r.right) + After(sc) by {
      LeastFirst(sc, r);
    }
    SpliceRegroup(Before(c), Inorder(sub.left), r.node, Inorder(r.right), After(sc), After(c));
  }

  lemma {:induction false} SpliceRegroup<T>(a: seq<T>, b: seq<T>, x: T, m: seq<T>, e: seq<T>, f: seq<T>)
    ensures (a + b + [x] + []) + m + (e + f) == a + b + ([x] + m + e + f)
  {
  }

  // ----- the rebalancing loop of an erasure

  /** The rotation the loop may have to do is possible. */
  ghost predicate CanShrink(v: Tree, d: Side) {
    && v.Bin?
    && (v.bal == Lean(d) + Lean(d) ==>
          && Kid(v, 1 - d).Bin?
          && (Kid(v, 1 - d).bal == -Lean(d) ==> Kid(Kid(v, 1 - d), d).Bin?))
  }

  /** v, whose balance byte has just been moved because side d got lower, after the rotation if any. */
  ghost function Shrunk(v: Tree, d: Side): Tree
    requires CanShrink(v, d)
  {
    if v.bal != Lean(d) + Lean(d) then v
    else if Kid(v, 1 - d).bal == -Lean(d) then Rotated2(v, d)
    else if Kid(v, 1 - d).bal == 0 then Rebalanced(Rotated1(v, d), d, -Lean(d), Lean(d))
    else Rebalanced(Rotated1(v, d), d, 0, 0)
  }

  /** The two early exits of the loop: the subtree is as high as it was. */
  ghost predicate Stops(v: Tree, d: Side)
    requires CanShrink(v, d)
  {
    v.bal == Lean(d) || (v.bal == Lean(d) + Lean(d) && Kid(v, 1 - d).bal == 0)
  }

  /** The node of the innermost frame with its balance byte moved. */
  ghost function Moved(c: Ctx, u: Tree): Tree
    requires c.Down?
  {
    Make(c.dir, u, c.node, c.bal + Lean(c.dir), c.size, c.other)
  }

  lemma {:induction false} ShrunkKeeps(v: Tree, d: Side)
    requires CanShrink(v, d)
    ensures Inorder(Shrunk(v, d)) == Inorder(v)
    ensures Count(Shrunk(v, d)) == Count(v)
    ensures Sized(v) ==> Sized(Shrunk(v, d))
  {
    if v.bal == Lean(d) + Lean(d) {
      if Kid(v, 1 - d).bal == -Lean(d) {
        DoubleRotationKeeps(v, d);
      } else {
        RotationKeeps(v, d);
      }
    }
  }

  /** v's side d got one lower, down to h; its balance byte already says so. */
  ghost predicate OneLower(v: Tree, d: Side, h: nat) {
    && v.Bin? && Height(Kid(v, d)) == h && Balanced(Kid(v, d)) && Balanced(Kid(v, 1 - d))
    && v.bal == LeanBy(d, Height(Kid(v, 1 - d)) - h) && -1 <= v.bal - Lean(d) <= 1
  }

  lemma {:induction false} ShrinkTurn(v: Tree, d: Side, h: nat)
    requires OneLower(v, d, h)
    ensures CanShrink(v, d) && Balanced(Shrunk(v, d))
    ensures Stops(v, d) ==> Height(Shrunk(v, d)) == 1 + Max(h + 1, Height(Kid(v, 1 - d)))
    ensures !Stops(v, d) ==> Height(Shrunk(v, d)) == Max(h + 1, Height(Kid(v, 1 - d)))
  {
    if v.bal == Lean(d) + Lean(d) {
      assert Height(Kid(v, 1 - d)) == h + 2;
      assert Overweight(v, d);
      SingleRotation(v, d);
      if Kid(v, 1 - d).bal == -Lean(d) {
        DoubleRotation(v, d);
      }
    } else {
      assert Height(v) == 1 + Max(Height(Kid(v, 0)), Height(Kid(v, 1)));
    }
  }

  /** One turn of the loop: it either restores the old height for good or passes the loss on. */
  lemma {:induction false} ShrinkBalance(c: Ctx, u: Tree, v: Tree)
    requires c.Down? && Fits(c, Height(u) + 1) && Balanced(u) && v == Moved(c, u)
    ensures CanShrink(v, c.dir) && Balanced(Shrunk(v, c.dir))
    ensures Stops(v, c.dir) ==> Fits(c.up, Height(Shrunk(v, c.dir)))
    ensures !Stops(v, c.dir) ==> Fits(c.up, Height(Shrunk(v, c.dir)) + 1)
  {
    MovedLower(c, u);
    ShrinkTurn(v, c.dir, Height(u));
    ShrunkFits(c, Height(u), Height(Kid(v, 1 - c.dir)), Height(Shrunk(v, c.dir)), Stops(v, c.dir));
  }

  lemma {:induction false} ShrunkFits(c: Ctx, h: int, o: int, h': int, stops: bool)
    requires c.Down? && Fits(c, h + 1) && o == Height(c.other)
    requires stops ==> h' == 1 + Max(h + 1, o)
    requires !stops ==> h' == Max(h + 1, o)
    ensures Fits(c.up, if stops then h' else h' + 1)
  {
    FitsUp(c, h + 1, if stops then h' else h' + 1);
  }

  lemma {:induction false} MovedLower(c: Ctx, u: Tree)
    requires c.Down? && Fits(c, Height(u) + 1) && Balanced(u)
    ensures OneLower(Moved(c, u), c.dir, Height(u))
    ensures Height(Kid(Moved(c, u), 1 - c.dir)) == Height(c.other)
  {
    if c.dir == 0 {
    } else {
    }
  }

  lemma {:induction false} FitsUp(c: Ctx, h: int, h': int)
    requires c.Down? && Fits(c, h) && h' == 1 + Max(h, Height(c.other))
    ensures Fits(c.up, h')
  {
  }

  lemma {:induction false} ShrinkContent(c: Ctx, u: Tree, v: Tree)
    requires c.Down? && SizedCtx(c, Count(u)) && Sized(u) && v == Moved(c, u) && CanShrink(v, c.dir)
    ensures SizedCtx(c.up, Count(Shrunk(v, c.dir))) && Sized(Shrunk(v, c.dir))
    ensures Before(c.up) + Inorder(Shrunk(v, c.dir)) + After(c.up) == Before(c) + Inorder(u) + After(c)
  {
    ShrunkKeeps(v, c.dir);
    if c.dir == 0 {
      Regroup5(Before(c.up), Inorder(u), c.node, Inorder(c.other), After(c.up));
      Regroup4(Before(c.up), Inorder(u), [c.node], Inorder(c.other) + After(c.up));
    } else {
      Regroup5(Before(c.up), Inorder(c.other), c.node, Inorder(u), After(c.up));
    }
  }

  lemma {:induction false} ShrinkStep(c: Ctx, u: Tree, v: Tree)
    requires c.Down? && Hollow(c, u) && v == Moved(c, u)
    ensures CanShrink(v, c.dir)
    ensures !Stops(v, c.dir) ==> Hollow(c.up, Shrunk(v, c.dir))
    ensures Stops(v, c.dir) ==> Balanced(Plug(c.up, Shrunk(v, c.dir))) && Sized(Plug(c.up, Shrunk(v, c.dir)))
    ensures Before(c.up) + Inorder(Shrunk(v, c.dir)) + After(c.up) == Before(c) + Inorder(u) + After(c)
  {
    ShrinkBalance(c, u, v);
    ShrinkContent(c, u, v);
    PlugBalanced(c.up, Shrunk(v, c.dir));
    PlugSized(c.up, Shrunk(v, c.dir));
  }

  // ----- why 64 path slots suffice

  function Fib(n: nat): nat {
    if n < 2 then n else Fib(n - 1) + Fib(n - 2)
  }

  lemma {:induction false} FibMonotone(m: nat, n: nat)
    requires m <= n
    ensures Fib(m) <= Fib(n)
    decreases n
  {
    if m < n {
      FibMonotone(m, n - 1);
      if n >= 2 {
        assert Fib(n) == Fib(n - 1) + Fib(n - 2);
      }
    }
  }

  /** An AVL tree of height h has at least Fib(h + 2) - 1 nodes. */
  lemma {:induction false} FibBound(t: Tree)
    requires Balanced(t)
    ensures Count(t) >= Fib(Height(t) + 2) - 1
  {
    if t.Bin? {
      FibBound(t.left);
      FibBound(t.right);
      var h := Height(t);
      var hl, hr := Height(t.left), Height(t.right);
      assert Fib(h + 2) == Fib(h + 1) + Fib(h);
      var lo := if hl < hr then hl else hr;
      assert lo + 2 >= h;
      FibMonotone(h, lo + 2);
    }
  }

  lemma {:induction false} FibNext(n: nat, a: int, b: int)
    requires Fib(n) == a && Fib(n + 1) == b
    ensures Fib(n + 2) == a + b && Fib(n + 3) == a + 2 * b
  {
  }

  lemma {:induction false} FibLarge(n: nat)
    requires n >= 48
    ensures Fib(n) > 0x1_0000_0000
  {
    var k: nat := 0;
    var a, b := 0, 1;
    while k < 48
      invariant k <= 48 && k % 8 == 0
      invariant Fib(k) == a && Fib(k + 1) == b
      invariant (k == 0 ==> a == 0 && b == 1) && (k == 8 ==> a == 21 && b == 34)
      invariant (k == 16 ==> a == 987 && b == 1597) && (k == 24 ==> a == 46368 && b == 75025)
      invariant (k == 32 ==> a == 2178309 && b == 3524578) && (k == 40 ==> a == 102334155 && b == 165580141)
      invariant k == 48 ==> a == 4807526976
    {
      FibNext(k, a, b);
      FibNext(k + 2, a + b, a + 2 * b);
      FibNext(k + 4, 2 * a + 3 * b, 3 * a + 5 * b);
      FibNext(k + 6, 5 * a + 8 * b, 8 * a + 13 * b);
      k, a, b := k + 8, 13 * a + 21 * b, 21 * a + 34 * b;
    }
    FibMonotone(k, n);
  }

  /** The node count fits the 32-bit size field only up to height 45. */
  lemma {:induction false} HeightBound(t: Tree)
    requires Balanced(t) && Count(t) <= 0xFFFF_FFFF
    ensures Height(t) <= 45
  {
    FibBound(t);
    var n := Height(t) + 2;
    if n >= 48 {
      FibLarge(n);
    }
  }
}
