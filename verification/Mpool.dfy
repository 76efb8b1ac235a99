/**
 `mpool.c`: a set of byte strings on top of the AVL tree, and the host list built on it
 (`parse_hosts` of main.c, `check_host` of extend.c).
 */
module Mpool {
  import opened Bytes
  import opened KavlTree
  import opened Kavl

  /** The elements of t by their byte strings. */
  ghost predicate Indexes(m: map<bytes, Node>, t: Tree) {
    && (forall n <- Nodes(t) :: n.key in m && m[n.key] == n)
    && (forall k <- m :: m[k] in Nodes(t) && m[k].key == k)
  }

  lemma {:induction false} InsertedIndex(m: map<bytes, Node>, t: Tree, t': Tree, x: Node, cnt: int)
    requires Indexes(m, t) && !HasKey(t, x.key) && InsertedAt(t, t', x, cnt)
    ensures Indexes(m[x.key := x], t')
    ensures Nodes(t') == Nodes(t) + {x}
  {
    InorderFacts(t);
    InorderFacts(t');
    var s, s' := Inorder(t), Inorder(t');
    assert s == s[..cnt] + s[cnt..];
    forall n | n in Nodes(t') ensures n in Nodes(t) || n == x {
      assert n in s';
    }
    forall n | n in Nodes(t) ensures n in Nodes(t') {
      assert n in s[..cnt] || n in s[cnt..];
      assert n in s';
    }
    assert x in s';
  }

  lemma {:induction false} ErasedNodes(t: Tree, t': Tree, p: Node, cnt: int)
    requires KavlTree.Valid(t) && ErasedAt(t, t', p, cnt)
    ensures p in Nodes(t) && Nodes(t') == Nodes(t) - {p}
  {
    InorderFacts(t);
    InorderFacts(t');
    var s := Inorder(t);
    var a, b := s[..cnt - 1], s[cnt..];
    assert s == a + [p] + b && Inorder(t') == a + b;
    IncreasingParts(a, p, b);
    AroundMembers(a, p, b);
    assert p in s;
    forall n | n in Nodes(t') ensures n in Nodes(t) && n != p {
      assert n in a + b;
      assert n in s;
    }
    forall n | n in Nodes(t) && n != p ensures n in Nodes(t') {
      assert n in s;
      assert n in a + b;
    }
  }

  lemma {:induction false} AroundMembers(a: seq<Node>, p: Node, b: seq<Node>)
    requires p !in a && p !in b
    ensures forall n :: n in a + b ==> n in a + [p] + b && n != p
    ensures forall n :: n in a + [p] + b && n != p ==> n in a + b
  {
  }

  lemma {:induction false} ErasedIndex(m: map<bytes, Node>, t: Tree, t': Tree, p: Node, cnt: int)
    requires Indexes(m, t) && KavlTree.Valid(t) && ErasedAt(t, t', p, cnt)
    ensures p in Nodes(t) && Nodes(t') == Nodes(t) - {p}
    ensures Indexes(m - {p.key}, t')
  {
    ErasedNodes(t, t', p, cnt);
  }

  lemma {:induction false} DeletedIndex(m: map<bytes, Node>, t: Tree, t': Tree, str: bytes, p: Node?, cnt: int)
    requires Indexes(m, t) && KavlTree.Valid(t)
    requires if HasKey(t, str) then p != null && p.key == str && ErasedAt(t, t', p, cnt) else t' == t
    ensures Indexes(m - {str}, t') && Nodes(t') <= Nodes(t)
  {
    if HasKey(t, str) {
      ErasedIndex(m, t, t', p, cnt);
    } else {
      assert str !in m;
      assert m - {str} == m;
    }
  }

  /** struct mphdr */
  class Pool {
    const hdr: Handle
    ghost var elems: map<bytes, Node>

    /** The tree is valid and holds exactly the strings of `elems`. */
    ghost predicate Valid()
      reads this, hdr, Nodes(hdr.tree)
    {
      Layer(3)
    }

    /**
     Valid's definition, wrapped in layers so that a client's proof works with the name
     and does not unfold the whole tree at every call; Open and Close get through them.
     */
    ghost predicate Layer(k: nat)
      reads this, hdr, Nodes(hdr.tree)
    {
      if k == 0 then hdr.Valid() && Indexes(elems, hdr.tree) else Layer(k - 1)
    }

    lemma {:induction false} Open(k: nat)
      requires Layer(k)
      ensures hdr.Valid() && Indexes(elems, hdr.tree)
    {
      if k > 0 { Open(k - 1); }
    }

    lemma {:induction false} Close(k: nat)
      requires hdr.Valid() && Indexes(elems, hdr.tree)
      ensures Layer(k)
    {
      if k > 0 { Close(k - 1); }
    }

    /** mem_pool */
    constructor ()
      ensures Valid() && elems == map[] && fresh(hdr) && Nodes(hdr.tree) == {}
    {
      hdr := new Handle();
      elems := map[];
      new;
      Close(3);
    }

    /** mem_get */
    method Get(str: bytes) returns (e: Node?)
      requires Valid()
      ensures str in elems ==> e == elems[str]
      ensures str !in elems ==> e == null
    {
      Open(3);
      var cnt;
      e, cnt := hdr.Find(str);
    }

    /** mem_add: the element already there for this string, or a new one. */
    method Add(str: bytes) returns (v: Node)
      requires Valid() && |elems| < UINT_MAX
      modifies this, hdr, Nodes(hdr.tree)
      ensures Valid()
      ensures str in old(elems) ==> v == old(elems)[str] && elems == old(elems)
      ensures str !in old(elems) ==> fresh(v) && elems == old(elems)[str := v]
      ensures fresh(Nodes(hdr.tree) - old(Nodes(hdr.tree)))
    {
      Open(3);
      CountIndexed(elems, hdr.tree);
      ghost var t := hdr.tree;
      var e := new Node(str);
      var cnt;
      v, cnt := hdr.Insert(e);
      if v == e {
        InsertedIndex(elems, t, hdr.tree, e, cnt);
        elems := elems[str := e];
      }
      Close(3);
    }

    /** mem_delete */
    method Delete(str: bytes)
      requires Valid()
      modifies this, hdr, Nodes(hdr.tree)
      ensures Valid()
      ensures elems == old(elems) - {str}
      ensures Nodes(hdr.tree) <= old(Nodes(hdr.tree))
    {
      Open(3);
      ghost var t := hdr.tree;
      var e, cnt := hdr.Erase(Equal(str));
      DeletedIndex(elems, t, hdr.tree, str, e, cnt);
      elems := elems - {str};
      Close(3);
    }

    /** mem_destroy up to freeing the header: every element is taken out, least first. */
    method Destroy()
      requires Valid()
      modifies this, hdr, Nodes(hdr.tree)
      ensures Valid() && elems == map[] && hdr.root == null
    {
      while hdr.root != null
        invariant Valid()
        invariant Nodes(hdr.tree) <= old(Nodes(hdr.tree))
        decreases |Nodes(hdr.tree)|
      {
        Open(3);
        ghost var t := hdr.tree;
        var e, cnt := hdr.Erase(First);
        ErasedIndex(elems, t, hdr.tree, e, cnt);
        elems := elems - {e.key};
        Close(3);
      }
      Open(3);
      assert hdr.tree.Nil?;
      assert Nodes(hdr.tree) == {};
    }
  }

  lemma {:induction false} DistinctCount(t: Tree)
    requires Distinct(t)
    ensures |Nodes(t)| == Count(t)
  {
    if t.Bin? {
      DistinctCount(t.left);
      DistinctCount(t.right);
      assert |Nodes(t.left) + {t.node}| == Count(t.left) + 1;
    }
  }

  lemma {:induction false} SameSize(m: map<bytes, Node>, s: set<Node>)
    requires forall n <- s :: n.key in m && m[n.key] == n
    requires forall k <- m :: m[k] in s && m[k].key == k
    ensures |m| == |s|
    decreases |m|
  {
    if m == map[] {
      assert s == {};
    } else {
      var k :| k in m;
      var m', s' := m - {k}, s - {m[k]};
      SameSize(m', s');
      assert m.Keys == m'.Keys + {k};
    }
  }

  lemma {:induction false} CountIndexed(m: map<bytes, Node>, t: Tree)
    requires Indexes(m, t) && KavlTree.Valid(t)
    ensures |m| == Count(t)
  {
    IncreasingDistinct(t);
    DistinctCount(t);
    SameSize(m, Nodes(t));
  }
}
