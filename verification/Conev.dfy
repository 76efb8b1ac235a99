/** `conev.c` with epoll: a fixed pool of connection entries, the live ones in front of an array of links. */
module Conev {
  import opened Common

  const UINT_MAX: nat := 0xFFFF_FFFF

  /** struct eval, as far as the pool touches it; generation counts how often the slot has been opened. */
  class Eval {
    var fd: int
    var index: nat
    var modIter: nat
    var kind: nat
    var pair: Eval?
    var hasData: bool
    ghost var generation: nat

    /** A slot that has not been opened yet holds anything. */
    constructor ()
      ensures generation == 0
    {
      fd, index, modIter, kind, pair, hasData, generation := *, *, *, *, *, *, 0;
    }

    /** memset */
    method Clear()
      modifies this
      ensures generation == old(generation)
      ensures fd == 0 && index == 0 && modIter == 0 && kind == 0 && pair == null && !hasData
    {
      fd, index, modIter, kind, pair, hasData := 0, 0, 0, 0, null, false;
    }
  }

  /** The first `count` entries are open and know their place. */
  ghost predicate Placed(links: seq<Eval>, count: nat)
    reads links`fd, links`index, links`generation
  {
    count <= |links| && forall i :: 0 <= i < count ==> links[i].index == i && links[i].fd > 0 && links[i].generation > 0
  }

  ghost predicate Dated(items: set<Eval>, iters: nat)
    reads items`modIter, items`generation
  {
    forall e <- items :: e.generation > 0 ==> e.modIter <= iters
  }

  /** The links hold every slot once; the first `count` are live and know their place. */
  ghost predicate Linked(links: seq<Eval>, items: set<Eval>, count: nat, iters: nat)
    reads items`fd, items`index, items`modIter, items`generation
  {
    && NoDuplicates(links) && (forall i :: 0 <= i < |links| ==> links[i] in items)
    && (forall e :: e in items ==> e in links)
    && Placed(links, count) && Dated(items, iters)
  }

  /** Linked, wrapped so that the methods carry it along by name. */
  ghost predicate Links(links: seq<Eval>, items: set<Eval>, count: nat, iters: nat, w: nat := 3)
    reads items`fd, items`index, items`modIter, items`generation
  {
    if w == 0 then Linked(links, items, count, iters) else Links(links, items, count, iters, w - 1)
  }

  lemma {:induction false} LinksOpen(links: seq<Eval>, items: set<Eval>, count: nat, iters: nat, w: nat := 3)
    requires Links(links, items, count, iters, w)
    ensures Linked(links, items, count, iters)
  {
    if w > 0 { LinksOpen(links, items, count, iters, w - 1); }
  }

  lemma {:induction false} LinksClose(links: seq<Eval>, items: set<Eval>, count: nat, iters: nat, w: nat := 3)
    requires Linked(links, items, count, iters)
    ensures Links(links, items, count, iters, w)
  {
    if w > 0 { LinksClose(links, items, count, iters, w - 1); }
  }

  /** The links with the one at position `index` swapped for the one at `last`. */
  function Swapped(links: seq<Eval>, index: nat, last: nat): (r: seq<Eval>)
    requires index < |links| && last < |links|
    ensures |r| == |links|
    ensures forall i :: 0 <= i < |r| ==> r[i] == links[if i == index then last else if i == last then index else i]
  {
    links[index := links[last]][last := links[index]]
  }

  lemma {:induction false} SwappedSame(links: seq<Eval>, index: nat, last: nat)
    requires index < |links| && last < |links|
    ensures forall e :: e in links ==> e in Swapped(links, index, last)
    ensures NoDuplicates(links) ==> NoDuplicates(Swapped(links, index, last))
  {
    var r := Swapped(links, index, last);
    forall e | e in links ensures e in r {
      var i :| 0 <= i < |links| && links[i] == e;
      assert r[if i == index then last else if i == last then index else i] == e;
    }
  }

  /** A swap-delete takes exactly the entry at `index` out of the live ones. */
  lemma {:induction false} SwappedLive(links: seq<Eval>, index: nat, last: nat, e: Eval)
    requires NoDuplicates(links) && index <= last < |links|
    ensures e in Swapped(links, index, last)[..last] <==> e in links[..last + 1] && e != links[index]
  {
    var r := Swapped(links, index, last);
    if e in links[..last + 1] && e != links[index] {
      var i :| 0 <= i < last + 1 && links[i] == e;
      assert r[if i == last then index else i] == e;
      assert r[..last][if i == last then index else i] == e;
    }
    if e in r[..last] {
      var i :| 0 <= i < last && r[i] == e;
      assert links[..last + 1][if i == index then last else i] == e;
    }
  }

  lemma {:induction false} SwappedOut(links: seq<Eval>, index: nat, last: nat)
    requires NoDuplicates(links) && index <= last < |links|
    ensures forall e :: e in Swapped(links, index, last)[..last] <==> e in links[..last + 1] && e != links[index]
  {
    forall e ensures e in Swapped(links, index, last)[..last] <==> e in links[..last + 1] && e != links[index] {
      SwappedLive(links, index, last, e);
    }
  }

  /** Different live entries, each paired with the next. */
  ghost predicate Paired(path: seq<Eval>, live: seq<Eval>, items: set<Eval>)
    reads items`pair
  {
    && path != [] && NoDuplicates(path) && (forall i :: 0 <= i < |path| ==> path[i] in live && path[i] in items)
    && (forall i :: 0 <= i < |path| - 1 ==> path[i].pair == path[i + 1])
  }

  /** An entry that was closed, and is not paired with `last`. */
  ghost predicate ClosedFor(p: Eval, last: Eval, live: seq<Eval>, items: set<Eval>)
    reads items`pair, items`fd, items`generation
  {
    p in items && p !in live && p.fd == -1 && p.generation > 0 && p.pair != last
  }

  /**
   What del_event goes through: the last entry is paired with nothing, with an entry that is closed already, or with
   an earlier one.
   */
  ghost predicate Chain(path: seq<Eval>, live: seq<Eval>, items: set<Eval>)
    reads items`pair, items`fd, items`generation
  {
    && Paired(path, live, items)
    && var last := path[|path| - 1];
      last.pair == null || last.pair in path[..|path| - 1] || ClosedFor(last.pair, last, live, items)
  }

  /** The last entry is paired with itself: del_event cuts that link before it follows it, and would go on with nothing. */
  ghost predicate Looped(path: seq<Eval>, live: seq<Eval>, items: set<Eval>)
    reads items`pair
  {
    Paired(path, live, items) && path[|path| - 1].pair == path[|path| - 1]
  }

  /** A pair is nothing, a live entry, or one that was closed and is not paired back. */
  ghost predicate PairsOk(live: seq<Eval>, items: set<Eval>)
    reads items`pair, items`fd, items`generation
  {
    forall e <- live :: e in items && (e.pair == null || e.pair in live || ClosedFor(e.pair, e, live, items))
  }

  /** Following the pairs from the end of a path leads to the end of a chain, or to an entry paired with itself. */
  lemma {:induction false} Follow(path: seq<Eval>, left: set<Eval>, live: seq<Eval>, items: set<Eval>)
    returns (full: seq<Eval>)
    requires PairsOk(live, items) && Paired(path, live, items)
    requires forall e :: e in live && e !in path ==> e in left
    ensures full != [] && full[0] == path[0] && (Chain(full, live, items) || Looped(full, live, items))
    decreases left
  {
    var last := path[|path| - 1];
    full := path;
    if last.pair != null && last.pair !in path && last.pair in live {
      var next := path + [last.pair];
      full := Follow(next, left - {last.pair}, live, items);
    } else if last.pair != null && last.pair in path {
      assert path == path[..|path| - 1] + [last];
    }
  }

  /** Two ways along the pairs from one entry agree as far as they go. */
  lemma {:induction false} SameWay(p: seq<Eval>, q: seq<Eval>, live: seq<Eval>, items: set<Eval>, i: nat)
    requires Paired(p, live, items) && Paired(q, live, items) && p[0] == q[0] && i < |p| && i < |q|
    ensures p[i] == q[i]
  {
    if i > 0 {
      SameWay(p, q, live, items, i - 1);
      assert p[i - 1].pair == p[i] && q[i - 1].pair == q[i];
    }
  }

  lemma {:induction false} NotItself(p: seq<Eval>, live: seq<Eval>, items: set<Eval>, i: nat)
    requires Paired(p, live, items) && i < |p| - 1
    ensures p[i].pair != p[i]
  {
    assert p[i].pair == p[i + 1] && p[i] != p[i + 1];
  }

  lemma {:induction false} NotBoth(p: seq<Eval>, q: seq<Eval>, live: seq<Eval>, items: set<Eval>)
    requires Chain(p, live, items) && Looped(q, live, items)
    ensures p[0] != q[0]
  {
    if p[0] == q[0] {
      var n := if |p| < |q| then |p| else |q|;
      SameWay(p, q, live, items, n - 1);
      if |p| > |q| {
        NotItself(p, live, items, n - 1);
      } else if |p| < |q| {
        assert q[n - 1].pair == q[n];
        forall i: nat | i < |p| - 1 ensures p[i] != q[n] {
          SameWay(p, q, live, items, i);
        }
      }
    }
  }

  /** del_event comes through from exactly those live entries whose pairs do not lead to an entry paired with itself. */
  lemma {:induction false} ChainOrLoop(val: Eval, live: seq<Eval>, items: set<Eval>)
    requires PairsOk(live, items) && val in live
    ensures (exists p :: Chain(p, live, items) && p[0] == val) <==> !exists q :: Looped(q, live, items) && q[0] == val
  {
    assert Paired([val], live, items);
    var left := set e | e in live;
    var full := Follow([val], left, live, items);
    if p, q :| Chain(p, live, items) && p[0] == val && Looped(q, live, items) && q[0] == val {
      NotBoth(p, q, live, items);
    }
  }

  ghost function Generations(s: seq<Eval>): (r: seq<nat>)
    reads s`generation
    ensures |r| == |s| && forall i :: 0 <= i < |s| ==> r[i] == s[i].generation
  {
    if s == [] then [] else Generations(s[..|s| - 1]) + [s[|s| - 1].generation]
  }

  class Pool {
    const max: nat
    const links: array<Eval>
    ghost const items: set<Eval>
    var count: nat
    var iters: nat
    var pevents: seq<Eval>
    // the generations of the polled entries when they were polled
    ghost var polled: seq<nat>

    ghost predicate Valid()
      reads this, links, items`fd, items`index, items`modIter, items`generation
    {
      links.Length == max && count <= max && iters <= UINT_MAX && Links(links[..], items, count, iters)
    }

    /** The live entries. */
    ghost function Live(): (r: seq<Eval>)
      requires count <= links.Length
      reads this, links
    {
      links[..count]
    }

    /** Every polled entry up to `offs` is still the connection that was polled, or has been closed or opened since. */
    ghost predicate Batch(offs: int)
      requires count <= links.Length
      reads this, links, items`modIter, items`generation
    {
      && -1 <= offs < |pevents| == |polled|
      && forall k :: 0 <= k <= offs ==>
        pevents[k] in items
        && (pevents[k].modIter == iters || (pevents[k] in Live() && pevents[k].generation == polled[k]))
    }

    /** init_pool */
    constructor (count: nat)
      ensures Valid() && this.count == 0 && max == count && iters == 0 && fresh(links) && fresh(items)
    {
      max := count;
      var es, all := MakeItems(count);
      if count > 0 {
        assert es[0] in all;
        es[0].Clear();
      }
      items := all;
      links := new Eval[count](i requires 0 <= i < |es| => es[i]);
      this.count := 0;
      iters := 0;
      pevents := [];
      polled := [];
      new;
      assert links[..] == es;
      LinksClose(links[..], items, this.count, iters);
    }

    /** The slot that the next connection gets. */
    ghost function NextSlot(): set<Eval>
      reads this, links
    {
      if count < links.Length then {links[count]} else {}
    }

    /** add_event; `registered` is what the kernel says to the new descriptor. */
    method AddEvent(kind: nat, fd: int, registered: bool) returns (r: Eval?)
      requires Valid() && fd > 0
      modifies `count, NextSlot()
      ensures Valid() && (r == null <==> old(count) >= max || !registered)
      ensures r == null ==> count == old(count)
      ensures r != null ==> {r} == old(NextSlot()) && r !in old(Live()) && Live() == old(Live()) + [r]
      ensures r != null ==> r.fd == fd && r.kind == kind && r.pair == null && r.modIter == iters && !r.hasData
      ensures forall e <- old(NextSlot()) :: e in items && e !in old(Live()) && e.modIter == iters
      ensures forall offs :: old(Batch(offs)) ==> Batch(offs)
    {
      LinksOpen(links[..], items, count, iters);
      if count >= max {
        return null;
      }
      var val := links[count];
      assert val == links[..][count] && val !in Live();
      OpenSlot(val, kind, fd);
      if !registered {
        return null;
      }
      count := count + 1;
      AddedLinks(links[..], items, count - 1, iters);
      assert links[..count] == old(Live()) + [val];
      r := val;
    }

    /** The slot behind the live ones is cleared and filled in. */
    method OpenSlot(val: Eval, kind: nat, fd: int)
      requires Valid() && count < max && links[count] == val && val in items && val !in Live()
      modifies val
      ensures Valid() && val.fd == fd && val.kind == kind && val.pair == null && val.modIter == iters && !val.hasData
      ensures val.index == count && val.generation > 0
    {
      LinksOpen(links[..], items, count, iters);
      val.Clear();
      val.modIter := iters;
      val.fd := fd;
      val.index := count;
      val.kind := kind;
      val.generation := val.generation + 1;
      forall i | 0 <= i < count ensures links[..][i].index == i && links[..][i].fd > 0 && links[..][i].generation > 0 {
        assert links[..count][i] == links[..][i];
      }
      LinksClose(links[..], items, count, iters);
    }

    /** The part of del_event about one entry: its descriptor is closed and it leaves the live ones by a swap. */
    method CloseOne(val: Eval)
      requires Valid() && val in Live()
      modifies `count, links, val`fd, val`modIter, val`hasData, items`index
      ensures Valid() && count == old(count) - 1 && val.fd == -1 && val.modIter == iters && !val.hasData
      ensures forall e :: e in Live() <==> e in old(Live()) && e != val
    {
      ghost var before := links[..];
      ghost var j := PlaceOf(links[..], items, count, iters, val);
      if val.hasData {
        val.hasData := false;
      }
      SwapOut(val, j);
      ClosedLinks(before, links[..], items, count, iters, j);
      LiveWithout(before, links[..], count, j);
    }

    /**
     del_event: the whole chain is closed, each entry once, and nothing else; one live entry at least must be left.
     An entry that is closed already is left alone.
     */
    method DelEvent(val: Eval, ghost path: seq<Eval>)
      requires Valid() && val in items && count > |path|
      requires if path == [] then val.fd == -1 && val.generation > 0 else Chain(path, Live(), items) && path[0] == val
      modifies `count, links, items`fd, items`modIter, items`hasData, items`index, items`pair
      ensures Valid() && count == old(count) - |path|
      ensures forall e :: e in Live() <==> e in old(Live()) && e !in path
      ensures forall e <- path :: e.fd == -1 && e.pair == null && e.modIter == iters && !e.hasData
      ensures forall e <- items :: e !in path ==>
        e.fd == old(e.fd) && e.pair == old(e.pair) && e.modIter == old(e.modIter) && e.hasData == old(e.hasData)
      ensures forall offs :: old(Batch(offs)) ==> Batch(offs)
      decreases |path|
    {
      AllBounded(links[..], items, count, iters, val);
      assert val.fd >= -1 && val.modIter <= iters;
      if val.fd == -1 {
        return;
      }
      var e := CloseFirst(val, path);
      assert forall x :: x in path <==> x == val || x in path[1..];
      if e != null {
        DelEvent(e, path[1..]);
      }
      assert count > 0;
    }

    /** The first entry of a chain is closed and cut off; the rest of the chain starts with its pair. */
    method CloseFirst(val: Eval, ghost path: seq<Eval>) returns (e: Eval?)
      requires Valid() && Chain(path, Live(), items) && path[0] == val
      modifies `count, links, val`fd, val`modIter, val`hasData, items`index, items`pair
      ensures Valid() && count == old(count) - 1
      ensures forall x :: x in Live() <==> x in old(Live()) && x != val
      ensures val.fd == -1 && val.pair == null && val.modIter == iters && !val.hasData
      ensures forall x <- items :: x !in path ==> x.pair == old(x.pair)
      ensures if |path| == 1 then e == null || (e in items && e.fd == -1 && e.generation > 0)
              else e == path[1] && Chain(path[1..], Live(), items)
    {
      ChainFirst(val, path, Live(), items);
      AllBounded(links[..], items, count, iters, val);
      ghost var rest, live := path[1..], Live();
      CloseOne(val);
      e := null;
      if val.pair != null {
        if |path| >= 2 {
          assert val.pair in path;
        }
        e := Unpair(val);
      }
      if |path| >= 2 {
        ChainRest(rest, live, Live(), items, val);
      }
    }

    /** The pair links around a closed entry are cut. */
    method Unpair(val: Eval) returns (e: Eval)
      requires val in items && val.pair != null && val.pair in items && val.pair != val
      modifies val`pair, val.pair`pair
      ensures e == old(val.pair) && val.pair == null
      ensures e.pair == if old(val.pair.pair) == val then null else old(val.pair.pair)
    {
      if val.pair.pair == val {
        val.pair.pair := null;
      }
      e := val.pair;
      val.pair := null;
    }

    /** Is the k-th event of the batch still to be handed out: its entry has not been closed or opened since? */
    predicate Fresh(k: nat)
      requires k < |pevents|
      reads `pevents, `iters, pevents`modIter
    {
      pevents[k].modIter != iters
    }

    /** The entries of the batch up to `offs` that are still to be handed out, from the last on. */
    ghost function Pending(offs: int): seq<Eval>
      requires offs < |pevents|
      reads `pevents, `iters, pevents`modIter
      decreases offs + 1
    {
      if offs < 0 then [] else (if Fresh(offs) then [pevents[offs]] else []) + Pending(offs - 1)
    }

    /**
     next_event, as long as the batch counter does not wrap; `ready` is what the kernel reports if it is asked.
     As long as the batch has an event whose entry has not been closed or opened since, the last such event is handed
     out, and the ones before it are left; only then a new batch is polled. What is handed out was live when it was
     polled and is still that connection.
     */
    method NextEvent(offs: int, ready: seq<Eval>) returns (r: Eval?, offs': int)
      requires Valid() && Batch(offs) && iters < UINT_MAX
      requires forall i :: 0 <= i < |ready| ==> ready[i] in Live()
      modifies `iters, `pevents, `polled
      ensures Valid() && (r != null ==> Batch(offs'))
      ensures r != null ==> r in Live() && r.modIter < iters
      ensures r != null ==> 0 <= offs' + 1 < |pevents| && pevents[offs' + 1] == r && r.generation == polled[offs' + 1]
      ensures old(exists k :: 0 <= k <= offs && pevents[k].modIter != iters) ==>
        && pevents == old(pevents) && iters == old(iters) && polled == old(polled)
        && -1 <= offs' < offs && r == pevents[offs' + 1] && r.modIter != iters
        && (forall k :: offs' + 1 < k <= offs ==> pevents[k].modIter == iters)
        && old(Pending(offs)) == [r] + Pending(offs')
      ensures old(forall k :: 0 <= k <= offs ==> pevents[k].modIter == iters) ==>
        && pevents == ready && iters == old(iters) + 1 && offs' == |ready| - 2
        && r == if ready == [] then null else ready[|ready| - 1]
    {
      offs' := offs;
      while offs' >= 0
        invariant -1 <= offs' <= offs && Batch(offs')
        invariant forall k :: offs' < k <= offs ==> pevents[k].modIter == iters
        invariant Pending(offs') == Pending(offs)
      {
        var val := pevents[offs'];
        offs' := offs' - 1;
        if val.modIter != iters {
          AllBounded(links[..], items, count, iters, val);
          return val, offs';
        }
      }
      r, offs' := Poll(ready);
    }

    /** Calling next_event as long as something is pending hands out all of it, each event once. */
    method HandOut(offs: int) returns (handed: seq<Eval>, offs': int)
      requires Valid() && Batch(offs) && iters < UINT_MAX
      modifies `iters, `pevents, `polled
      ensures Valid() && Batch(offs') && pevents == old(pevents) && iters == old(iters)
      ensures handed == old(Pending(offs)) && Pending(offs') == []
    {
      handed, offs' := [], offs;
      ghost var all := Pending(offs);
      while exists k :: 0 <= k <= offs' && Fresh(k)
        invariant Valid() && Batch(offs') && pevents == old(pevents) && iters == old(iters)
        invariant handed + Pending(offs') == all
        decreases offs' + 1
      {
        var r;
        r, offs' := HandOne(offs');
        handed := handed + [r];
      }
      NonePending(offs');
    }

    method HandOne(offs: int) returns (r: Eval, offs': int)
      requires Valid() && Batch(offs) && iters < UINT_MAX && exists k :: 0 <= k <= offs && Fresh(k)
      modifies `iters, `pevents, `polled
      ensures Valid() && Batch(offs') && pevents == old(pevents) && iters == old(iters) && -1 <= offs' < offs
      ensures old(Pending(offs)) == [r] + Pending(offs')
    {
      ghost var k :| 0 <= k <= offs && Fresh(k);
      assert pevents[k].modIter != iters;
      var e;
      e, offs' := NextEvent(offs, []);
      r := e;
    }

    lemma {:induction false} NonePending(offs: int)
      requires offs < |pevents| && forall k :: 0 <= k <= offs ==> !Fresh(k)
      ensures Pending(offs) == []
      decreases offs + 1
    {
      if offs >= 0 { NonePending(offs - 1); }
    }

    /** A new batch: its first event cannot be stale. */
    method Poll(ready: seq<Eval>) returns (r: Eval?, offs: int)
      requires Valid() && iters < UINT_MAX && forall i :: 0 <= i < |ready| ==> ready[i] in Live()
      modifies `iters, `pevents, `polled
      ensures Valid() && pevents == ready && offs == |ready| - 2 && (r == null <==> ready == [])
      ensures iters == old(iters) + 1
      ensures r != null ==> Batch(offs) && r in Live() && r.modIter < iters
      ensures r != null ==> pevents[offs + 1] == r && |polled| == |ready| && r.generation == polled[offs + 1]
    {
      ReadyBounded(links[..], items, count, iters, ready);
      pevents := ready;
      polled := Generations(ready);
      iters := iters + 1;
      offs := |ready| - 2;
      r := if ready == [] then null else ready[|ready| - 1];
    }

    /** The swap itself. */
    method SwapOut(val: Eval, ghost j: nat)
      requires links.Length == max && 0 < count <= max && j < count && links[j] == val && val.index == j
      requires NoDuplicates(links[..]) && iters <= UINT_MAX && forall i :: 0 <= i < max ==> links[i] in items
      requires Dated(items, iters)
      requires Placed(links[..], count)
      modifies `count, links, val`fd, val`modIter, items`index
      ensures links[..] == Swapped(old(links[..]), j, old(count) - 1) && count == old(count) - 1
      ensures val.fd == -1 && val.modIter == iters
      ensures Placed(links[..], count)
      ensures Dated(items, iters)
    {
      val.fd := -1;
      val.modIter := iters;
      count := count - 1;
      var ev := links[count];
      assert ev == links[..][count] && val == links[..][j];
      if ev != val {
        var index := val.index;
        links[index] := ev;
        links[count] := val;
        ev.index := index;
      }
    }
  }

  lemma {:induction false} AllBounded(links: seq<Eval>, items: set<Eval>, count: nat, iters: nat, e: Eval)
    requires Links(links, items, count, iters) && count <= |links| && e in items
    ensures e.generation > 0 ==> e.modIter <= iters
    ensures e in links[..count] ==> e.fd > 0 && e.generation > 0
  {
    LinksOpen(links, items, count, iters);
  }

  /** A batch may be newer than all live entries. */
  lemma {:induction false} ReadyBounded(links: seq<Eval>, items: set<Eval>, count: nat, iters: nat, ready: seq<Eval>)
    requires Links(links, items, count, iters) && count <= |links|
    requires forall i :: 0 <= i < |ready| ==> ready[i] in links[..count]
    ensures forall i :: 0 <= i < |ready| ==> ready[i] in items && ready[i].modIter <= iters
    ensures Links(links, items, count, iters + 1)
  {
    LinksOpen(links, items, count, iters);
    forall i | 0 <= i < |ready| ensures ready[i] in items && ready[i].modIter <= iters {
      AllBounded(links, items, count, iters, ready[i]);
    }
    LinksClose(links, items, count, iters + 1);
  }

  lemma {:induction false} ChainFirst(val: Eval, path: seq<Eval>, live: seq<Eval>, items: set<Eval>)
    requires Chain(path, live, items) && path[0] == val
    ensures val in live && val in items && (val.pair != null ==> val.pair in items && val.pair != val)
    ensures |path| >= 2 ==> val.pair == path[1]
    ensures |path| == 1 && val.pair != null ==> val.pair.fd == -1 && val.pair.generation > 0 && val.pair.pair != val
    ensures |path| == 1 && val.pair != null ==> val.pair !in live
    ensures |path| > 2 ==> path[1].pair == path[2]
  {
    if |path| >= 2 {
      assert path[1] != path[0] && path[0].pair == path[0 + 1];
    }
  }

  lemma {:induction false} ClosedLinks(before: seq<Eval>, after: seq<Eval>, items: set<Eval>, count: nat, iters: nat, j: nat)
    requires NoDuplicates(before) && j <= count < |before| && after == Swapped(before, j, count)
    requires (forall i :: 0 <= i < |before| ==> before[i] in items) && (forall e :: e in items ==> e in before)
    requires Placed(after, count)
    requires Dated(items, iters)
    ensures Links(after, items, count, iters)
  {
    SwappedSame(before, j, count);
    LinksClose(after, items, count, iters);
  }

  lemma {:induction false} LiveWithout(before: seq<Eval>, after: seq<Eval>, count: nat, j: nat)
    requires NoDuplicates(before) && j <= count < |before| && after == Swapped(before, j, count)
    ensures forall e :: e in after[..count] <==> e in before[..count + 1] && e != before[j]
  {
    SwappedOut(before, j, count);
  }

  /** A chain without its first entry, once that is closed and cut off. */
  lemma {:induction false} ChainRest(rest: seq<Eval>, live: seq<Eval>, live': seq<Eval>, items: set<Eval>, first: Eval)
    requires rest != [] && NoDuplicates(rest) && first !in rest && first in items
    requires first.fd == -1 && first.pair == null && first.generation > 0
    requires forall i :: 0 <= i < |rest| ==> rest[i] in live && rest[i] in items
    requires forall e :: e in live' <==> e in live && e != first
    requires forall i :: 0 <= i < |rest| - 1 ==> rest[i].pair == rest[i + 1]
    requires var last := rest[|rest| - 1];
      last.pair == null || last.pair == first || last.pair in rest[..|rest| - 1] || ClosedFor(last.pair, last, live, items)
    ensures Chain(rest, live', items)
  {
  }

  lemma {:induction false} PlaceOf(links: seq<Eval>, items: set<Eval>, count: nat, iters: nat, val: Eval) returns (j: nat)
    requires Links(links, items, count, iters) && count <= |links| && val in links[..count]
    ensures j < count && links[j] == val && val.index == j && NoDuplicates(links)
    ensures forall e :: e in items ==> e in links
    ensures forall i :: 0 <= i < |links| ==> links[i] in items
    ensures Dated(items, iters)
    ensures Placed(links, count)
  {
    LinksOpen(links, items, count, iters);
    j :| j < count && links[..count][j] == val;
  }

  lemma {:induction false} AddedLinks(links: seq<Eval>, items: set<Eval>, count: nat, iters: nat)
    requires Links(links, items, count, iters) && count < |links| && links[count].index == count && links[count].fd > 0
    requires links[count].generation > 0
    ensures Links(links, items, count + 1, iters)
  {
    LinksOpen(links, items, count, iters);
    LinksClose(links, items, count + 1, iters);
  }

  /** The slots of a pool. */
  method MakeItems(n: nat) returns (es: seq<Eval>, ghost items: set<Eval>)
    ensures |es| == n && NoDuplicates(es) && fresh(items)
    ensures forall e :: e in es <==> e in items
    ensures forall e <- items :: e.generation == 0
  {
    es, items := [], {};
    for i := 0 to n
      invariant |es| == i && NoDuplicates(es) && fresh(items)
      invariant forall e :: e in es <==> e in items
      invariant forall e <- items :: e.generation == 0
    {
      var e := new Eval();
      es := es + [e];
      items := items + {e};
    }
  }
}
