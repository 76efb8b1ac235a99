/**
 The emitted parser: a first pass that checks the whole message and remembers, for every entry, where its items
 start and end, and Get functions that walk that range without any further checks.
 */
module BProtoParser {
  import opened Bytes
  import opened Common
  import opened BProto
  import opened BProtoWriter

  // ---------- offsets of items ----------

  ghost function Off(items: seq<Item>, i: nat): nat
    requires i <= |items|
  {
    |Encode(items[..i])|
  }

  lemma {:induction false} OffStep(items: seq<Item>, i: nat)
    requires i < |items|
    ensures Off(items, i + 1) == Off(items, i) + |EncodeItem(items[i])|
  {
    assert items[..i + 1] == items[..i] + [items[i]];
    EncodeSnoc(items[..i], items[i]);
  }

  lemma {:induction false} OffGrows(items: seq<Item>, i: nat, j: nat)
    requires i <= j <= |items|
    ensures Off(items, i) <= Off(items, j)
    ensures i < j ==> Off(items, i) + HEADER <= Off(items, j)
    decreases j - i
  {
    if i < j {
      OffStep(items, i);
      OffGrows(items, i + 1, j);
    }
  }

  /** The encoded items from i on, at their offset. */
  lemma {:induction false} OffRest(items: seq<Item>, i: nat)
    requires i <= |items|
    ensures Off(items, i) <= |Encode(items)| && Encode(items)[Off(items, i)..] == Encode(items[i..])
    ensures i == |items| ==> Off(items, i) == |Encode(items)|
  {
    assert items == items[..i] + items[i..];
    EncodeConcat(items[..i], items[i..]);
  }

  lemma {:induction false} ItemAt(items: seq<Item>, i: nat, buf: bytes)
    requires i < |items| && buf == Encode(items) && ItemOk(items[i])
    ensures Off(items, i) + |EncodeItem(items[i])| <= |buf|
    ensures FirstItem(buf[Off(items, i)..]) == Some(items[i])
  {
    OffRest(items, i);
    OffRest(items, i + 1);
    OffStep(items, i);
    FirstOfEncoded(items[i], Encode(items[i..][1..]));
  }

  // ---------- the range of an entry ----------

  ghost predicate Sane(schema: seq<Entry>, k: nat) {
    k < |schema| && EntryOk(schema[k])
  }

  /** The first item of entry k, or the end of the items if there is none. */
  ghost function Lo(schema: seq<Entry>, items: seq<Item>, k: nat): (r: nat)
    requires Sane(schema, k)
    ensures r <= |items|
  {
    if items == [] then 0
    else
      var init := items[..|items| - 1];
      if Values(schema, init, k) != [] then Lo(schema, init, k)
      else if Matches(schema[k], items[|items| - 1]) then |items| - 1
      else |items|
  }

  /** The end of the last item of entry k, or the end of the items if there is none. */
  ghost function Hi(schema: seq<Entry>, items: seq<Item>, k: nat): (r: nat)
    requires Sane(schema, k)
    ensures r <= |items|
  {
    if items == [] then 0
    else if Matches(schema[k], items[|items| - 1]) then |items|
    else if Values(schema, items[..|items| - 1], k) != [] then Hi(schema, items[..|items| - 1], k)
    else |items|
  }

  lemma {:induction false} MoreValues(schema: seq<Entry>, items: seq<Item>, k: nat)
    requires Sane(schema, k) && items != []
    ensures var init := items[..|items| - 1];
      Values(schema, items, k) == [] <==> Values(schema, init, k) == [] && !Matches(schema[k], items[|items| - 1])
  {
  }

  lemma {:induction false} RangeFacts(schema: seq<Entry>, items: seq<Item>, k: nat)
    requires Sane(schema, k)
    ensures var lo, hi := Lo(schema, items, k), Hi(schema, items, k);
      && (Values(schema, items, k) == [] ==> lo == hi == |items|)
      && (Values(schema, items, k) != [] ==> lo < hi && Matches(schema[k], items[hi - 1]))
      && (forall i :: 0 <= i < |items| && Matches(schema[k], items[i]) ==> lo <= i < hi)
  {
    if items != [] {
      var init := items[..|items| - 1];
      RangeFacts(schema, init, k);
      MoreValues(schema, items, k);
      forall i | 0 <= i < |items| && Matches(schema[k], items[i])
        ensures Lo(schema, items, k) <= i < Hi(schema, items, k)
      {
        assert i < |init| ==> init[i] == items[i];
      }
    }
  }

  /** What the first pass keeps of entry k, after `items`: its start (n if not seen), span and count. */
  ghost predicate Recorded(schema: seq<Entry>, items: seq<Item>, k: nat, n: nat, start: nat, span: nat, count: nat)
    requires Sane(schema, k)
  {
    && count == |Values(schema, items, k)|
    && (if count == 0 then start == n && span == 0
        else start == Off(items, Lo(schema, items, k)) && start < n
             && start + span == Off(items, Hi(schema, items, k)))
  }

  /** An item of another entry changes nothing for k. */
  lemma {:induction false} RecordedOther(schema: seq<Entry>, items: seq<Item>, it: Item, k: nat, n: nat, start: nat,
                                         span: nat, count: nat)
    requires Sane(schema, k) && Recorded(schema, items, k, n, start, span, count) && !Matches(schema[k], it)
    ensures Recorded(schema, items + [it], k, n, start, span, count)
  {
    var more := items + [it];
    assert more[..|items|] == items;
    if count > 0 {
      RangeFacts(schema, items, k);
      assert more[..Lo(schema, items, k)] == items[..Lo(schema, items, k)];
      assert more[..Hi(schema, items, k)] == items[..Hi(schema, items, k)];
    }
  }

  /** An item of k itself: the case of the switch. */
  lemma {:induction false} RecordedOwn(schema: seq<Entry>, items: seq<Item>, it: Item, k: nat, n: nat, start: nat,
                                       span: nat, count: nat, start': nat)
    requires Sane(schema, k) && Recorded(schema, items, k, n, start, span, count) && Matches(schema[k], it)
    requires |Encode(items)| < n && start' == if start == n then |Encode(items)| else start
    ensures start' <= |Encode(items + [it])|
    ensures Recorded(schema, items + [it], k, n, start', |Encode(items + [it])| - start', count + 1)
  {
    var more := items + [it];
    assert more[..|items|] == items && more[..|more|] == more && items[..|items|] == items;
    EncodeSnoc(items, it);
    if count > 0 {
      RangeFacts(schema, items, k);
      assert more[..Lo(schema, items, k)] == items[..Lo(schema, items, k)];
      OffGrows(items, Lo(schema, items, k), |items|);
    }
  }

  // ---------- the values that are left ----------

  lemma {:induction false} ValuesHead(schema: seq<Entry>, items: seq<Item>, k: nat)
    requires Sane(schema, k) && items != []
    ensures Values(schema, items, k) ==
      (if Matches(schema[k], items[0]) then [ValueOf(items[0])] else []) + Values(schema, items[1..], k)
  {
    if |items| > 1 {
      var init := items[..|items| - 1];
      ValuesHead(schema, init, k);
      assert items[1..][..|items| - 2] == init[1..];
    }
  }

  lemma {:induction false} NoValues(schema: seq<Entry>, items: seq<Item>, k: nat)
    requires Sane(schema, k) && forall i :: 0 <= i < |items| ==> !Matches(schema[k], items[i])
    ensures Values(schema, items, k) == []
  {
    if items != [] {
      NoValues(schema, items[..|items| - 1], k);
    }
  }

  lemma {:induction false} SomeValue(schema: seq<Entry>, items: seq<Item>, k: nat, i: nat)
    requires Sane(schema, k) && i < |items| && Matches(schema[k], items[i])
    ensures Values(schema, items, k) != []
  {
    if i < |items| - 1 {
      SomeValue(schema, items[..|items| - 1], k, i);
    }
  }

  /** A position before the end of the range has a value left, one at the end has none. */
  lemma {:induction false} LeftInRange(schema: seq<Entry>, items: seq<Item>, k: nat, n: nat)
    requires Sane(schema, k) && Lo(schema, items, k) <= n <= Hi(schema, items, k)
    ensures Values(schema, items[n..], k) == [] <==> n == Hi(schema, items, k)
    ensures n == Lo(schema, items, k) ==> Values(schema, items[n..], k) == Values(schema, items, k)
  {
    RangeFacts(schema, items, k);
    var lo, hi := Lo(schema, items, k), Hi(schema, items, k);
    if n < hi {
      assert items[n..][hi - 1 - n] == items[hi - 1];
      SomeValue(schema, items[n..], k, hi - 1 - n);
    } else {
      NoValues(schema, items[n..], k);
    }
    if n == lo {
      SkipBefore(schema, items, k, n);
    }
  }

  lemma {:induction false} SkipBefore(schema: seq<Entry>, items: seq<Item>, k: nat, n: nat)
    requires Sane(schema, k) && n <= |items| && forall i :: 0 <= i < n ==> !Matches(schema[k], items[i])
    ensures Values(schema, items[n..], k) == Values(schema, items, k)
  {
    if n > 0 {
      ValuesHead(schema, items, k);
      SkipBefore(schema, items[1..], k, n - 1);
      assert items[1..][n - 1..] == items[n..];
    } else {
      assert items[0..] == items;
    }
  }

  // ---------- the first pass ----------

  function Join(done: seq<Item>, rest: Option<seq<Item>>): Option<seq<Item>> {
    if rest.None? then None else Some(done + rest.value)
  }

  lemma {:induction false} JoinJoin(done: seq<Item>, it: Item, rest: Option<seq<Item>>)
    ensures Join(done, Join([it], rest)) == Join(done + [it], rest)
  {
    if rest.Some? {
      assert done + ([it] + rest.value) == done + [it] + rest.value;
    }
  }

  lemma {:induction false} SplitFirst(s: bytes, it: Item)
    requires s != [] && FirstItem(s) == Some(it)
    ensures Split(s) == Join([it], Split(s[|EncodeItem(it)|..]))
  {
  }

  /** The text splits into the items found so far and whatever the rest splits into. */
  ghost predicate Splitting(buf: bytes, done: seq<Item>, p: nat) {
    p <= |buf| && buf[..p] == Encode(done) && Split(buf) == Join(done, Split(buf[p..]))
  }

  lemma {:induction false} SplitStuck(buf: bytes, done: seq<Item>, p: nat)
    requires Splitting(buf, done, p) && p < |buf| && FirstItem(buf[p..]).None?
    ensures Split(buf).None?
  {
  }

  lemma {:induction false} SplitStep(buf: bytes, done: seq<Item>, p: nat, it: Item, p': nat)
    requires Splitting(buf, done, p) && p < |buf| && FirstItem(buf[p..]) == Some(it) && p' == p + |EncodeItem(it)|
    ensures p' <= |buf| && ItemOk(it) && Splitting(buf, done + [it], p')
    ensures |Encode(done)| == p && |Encode(done + [it])| == p'
  {
    var s := buf[p..];
    FirstItemOk(s);
    FirstItemEncodes(s);
    EncodeSnoc(done, it);
    SplitFirst(s, it);
    JoinJoin(done, it, Split(s[|EncodeItem(it)|..]));
    assert s[|EncodeItem(it)|..] == buf[p'..];
    assert buf[..p'] == buf[..p] + EncodeItem(it);
  }

  /** An item of no entry means that the text is no message. */
  lemma {:induction false} UnknownItem(schema: seq<Entry>, buf: bytes, done: seq<Item>, it: Item, p: nat)
    requires Compiles(schema) && Splitting(buf, done + [it], p)
    requires forall k :: 0 <= k < |schema| ==> !Matches(schema[k], it)
    ensures !IsMessage(schema, buf)
  {
    if Split(buf).Some? {
      var items := Split(buf).value;
      assert items[|done|] == it;
      assert !exists k :: 0 <= k < |schema| && Matches(schema[k], items[|done|]);
    }
  }

  lemma {:induction false} SplitStart(buf: bytes)
    ensures Splitting(buf, [], 0)
  {
    assert buf[0..] == buf && buf[..0] == [];
    if Split(buf).Some? {
      assert [] + Split(buf).value == Split(buf).value;
    }
  }

  lemma {:induction false} SplitEnd(buf: bytes, done: seq<Item>)
    requires Splitting(buf, done, |buf|)
    ensures Split(buf) == Some(done)
  {
    assert buf[|buf|..] == [] && done + [] == done;
  }

  /** All that the first pass knows of the items it has seen. */
  ghost predicate Seen(schema: seq<Entry>, done: seq<Item>, n: nat, start: seq<nat>, span: seq<nat>, count: seq<nat>) {
    && Compiles(schema) && |start| == |span| == |count| == |schema| && AllKnown(schema, done)
    && (forall i :: 0 <= i < |done| ==> ItemOk(done[i]))
    && (forall k :: 0 <= k < |schema| ==> Recorded(schema, done, k, n, start[k], span[k], count[k]))
  }

  /** Seen, wrapped so that the methods carry it along by name. */
  ghost predicate Scanned(schema: seq<Entry>, done: seq<Item>, n: nat, start: seq<nat>, span: seq<nat>,
                          count: seq<nat>, w: nat := 3) {
    if w == 0 then Seen(schema, done, n, start, span, count)
    else Scanned(schema, done, n, start, span, count, w - 1)
  }

  lemma {:induction false} ScannedOpen(schema: seq<Entry>, done: seq<Item>, n: nat, start: seq<nat>, span: seq<nat>,
                                       count: seq<nat>, w: nat := 3)
    requires Scanned(schema, done, n, start, span, count, w)
    ensures Seen(schema, done, n, start, span, count)
  {
    if w > 0 { ScannedOpen(schema, done, n, start, span, count, w - 1); }
  }

  lemma {:induction false} ScannedClose(schema: seq<Entry>, done: seq<Item>, n: nat, start: seq<nat>, span: seq<nat>,
                                        count: seq<nat>, w: nat := 3)
    requires Seen(schema, done, n, start, span, count)
    ensures Scanned(schema, done, n, start, span, count, w)
  {
    if w > 0 { ScannedClose(schema, done, n, start, span, count, w - 1); }
  }

  /** The case of entry k in the switch: the records that it updates, and those it leaves. */
  lemma {:induction false} ScannedMore(schema: seq<Entry>, done: seq<Item>, n: nat, start: seq<nat>, span: seq<nat>,
                                       count: seq<nat>, it: Item, k: nat, start': nat)
    requires |start| == |span| == |count| == |schema| && k < |schema| && Compiles(schema)
    requires Scanned(schema, done, n, start, span, count) && ItemOk(it) && Matches(schema[k], it)
    requires |Encode(done)| < n && start' == if start[k] == n then |Encode(done)| else start[k]
    ensures start' <= |Encode(done + [it])|
    ensures Scanned(schema, done + [it], n, start[k := start'], span[k := |Encode(done + [it])| - start'],
                    count[k := count[k] + 1])
  {
    ScannedOpen(schema, done, n, start, span, count);
    RecordedOwn(schema, done, it, k, n, start[k], span[k], count[k], start');
    forall j: nat | j < |schema| && j != k
      ensures Recorded(schema, done + [it], j, n, start[j], span[j], count[j])
    {
      OtherEntry(schema, it, j, k);
      RecordedOther(schema, done, it, j, n, start[j], span[j], count[j]);
    }
    KnownMore(schema, done, it, k);
    ScannedClose(schema, done + [it], n, start[k := start'], span[k := |Encode(done + [it])| - start'],
                 count[k := count[k] + 1]);
  }

  lemma {:induction false} OtherEntry(schema: seq<Entry>, it: Item, j: nat, k: nat)
    requires Compiles(schema) && j < |schema| && k < |schema| && j != k && Matches(schema[k], it)
    ensures !Matches(schema[j], it)
  {
    if Matches(schema[j], it) { MatchUnique(schema, it, j, k); }
  }

  lemma {:induction false} KnownMore(schema: seq<Entry>, done: seq<Item>, it: Item, k: nat)
    requires Compiles(schema) && AllKnown(schema, done) && k < |schema| && Matches(schema[k], it) && ItemOk(it)
    requires forall i :: 0 <= i < |done| ==> ItemOk(done[i])
    ensures AllKnown(schema, done + [it]) && forall i :: 0 <= i <= |done| ==> ItemOk((done + [it])[i])
  {
    var more := done + [it];
    forall i | 0 <= i < |more| ensures exists j :: 0 <= j < |schema| && Matches(schema[j], more[i]) {
      if i < |done| {
        assert more[i] == done[i];
      } else {
        assert Matches(schema[k], more[i]);
      }
    }
  }

  /** The cases of the switch over ids, with their checks: the entry of an item, or none. */
  method FindEntry(schema: seq<Entry>, id: nat, tag: nat, len: nat, ghost it: Item) returns (found: bool, k: nat)
    requires Compiles(schema) && ItemOk(it) && it.id == id && it.tag == tag && |it.body| == len
    ensures found ==> k < |schema| && Matches(schema[k], it)
    ensures !found ==> forall j :: 0 <= j < |schema| ==> !Matches(schema[j], it)
  {
    for i := 0 to |schema|
      invariant forall j :: 0 <= j < i ==> !Matches(schema[j], it)
    {
      var e := schema[i];
      if SwitchOf(TypeOf(e.kind)) == SwitchOf(tag) && e.id == id {
        k := i;
        found := tag == TypeOf(e.kind) && (e.kind.ConstData? ==> len == e.kind.size);
        if !found {
          NoOtherCase(schema, i, it);
        }
        return;
      }
    }
    return false, 0;
  }

  lemma {:induction false} CaseUnique(schema: seq<Entry>, j: nat, k: nat, it: Item)
    requires Compiles(schema) && k < |schema| && j < |schema| && schema[k].id == it.id && Matches(schema[j], it)
    requires SwitchOf(TypeOf(schema[k].kind)) == SwitchOf(it.tag)
    ensures j == k
  {
    assert schema[j].id == schema[k].id && SwitchOf(TypeOf(schema[j].kind)) == SwitchOf(TypeOf(schema[k].kind));
  }

  lemma {:induction false} NoOtherCase(schema: seq<Entry>, k: nat, it: Item)
    requires Compiles(schema) && k < |schema| && schema[k].id == it.id && !Matches(schema[k], it)
    requires SwitchOf(TypeOf(schema[k].kind)) == SwitchOf(it.tag)
    ensures forall j :: 0 <= j < |schema| ==> !Matches(schema[j], it)
  {
    forall j: nat | j < |schema| ensures !Matches(schema[j], it) {
      if Matches(schema[j], it) { CaseUnique(schema, j, k, it); }
    }
  }

  /** The checks that an item is complete, as the first pass makes them. */
  method NextItem(buf: bytes, pos: nat) returns (ok: bool, id: nat, tag: nat, len: nat, end: nat)
    requires pos < |buf|
    ensures ok <==> FirstItem(buf[pos..]).Some?
    ensures ok ==> var it := FirstItem(buf[pos..]).value;
      id == it.id && tag == it.tag && len == |it.body| && end == pos + |EncodeItem(it)| && end <= |buf|
  {
    ghost var s := buf[pos..];
    var left := |buf| - pos;
    id, tag, len, end := 0, 0, 0, 0;
    if !(left >= HEADER) {
      return false, id, tag, len, end;
    }
    assert buf[pos..pos + 2] == s[..2] && buf[pos + 2..pos + 4] == s[2..4];
    id, tag := FromLe(buf[pos..pos + 2]), FromLe(buf[pos + 2..pos + 4]);
    left := left - HEADER;
    if IsUInt(tag) {
      len := UIntSize(tag);
      end := pos + HEADER + len;
      return left >= len, id, tag, len, end;
    }
    if !IsBlob(tag) || !(left >= 4) {
      return false, id, tag, len, end;
    }
    assert buf[pos + 4..pos + 8] == s[4..8];
    len := FromLe(buf[pos + 4..pos + 8]);
    left := left - 4;
    end := pos + HEADER + 4 + len;
    ok := left >= len;
  }

  // ---------- the parser ----------

  /** Where the parser stands in the range of entry k: before item `next`. */
  ghost predicate Placed(schema: seq<Entry>, items: seq<Item>, k: nat, start: nat, span: nat, pos: nat, next: nat)
    requires Sane(schema, k)
  {
    var lo, hi := Lo(schema, items, k), Hi(schema, items, k);
    && lo <= next <= hi && start == Off(items, lo) && start + span == Off(items, hi) && start + pos == Off(items, next)
  }

  ghost predicate Places(schema: seq<Entry>, items: seq<Item>, start: seq<nat>, span: seq<nat>, pos: seq<nat>,
                         next: seq<nat>) {
    && Compiles(schema) && AllKnown(schema, items) && (forall i :: 0 <= i < |items| ==> ItemOk(items[i]))
    && |start| == |span| == |pos| == |next| == |schema|
    && (forall k :: 0 <= k < |schema| ==> Placed(schema, items, k, start[k], span[k], pos[k], next[k]))
  }

  /** Places, wrapped so that the methods carry it along by name. */
  ghost predicate Standing(schema: seq<Entry>, items: seq<Item>, start: seq<nat>, span: seq<nat>, pos: seq<nat>,
                           next: seq<nat>, w: nat := 3) {
    if w == 0 then Places(schema, items, start, span, pos, next)
    else Standing(schema, items, start, span, pos, next, w - 1)
  }

  lemma {:induction false} StandingOpen(schema: seq<Entry>, items: seq<Item>, start: seq<nat>, span: seq<nat>,
                                        pos: seq<nat>, next: seq<nat>, w: nat := 3)
    requires Standing(schema, items, start, span, pos, next, w)
    ensures Places(schema, items, start, span, pos, next)
  {
    if w > 0 { StandingOpen(schema, items, start, span, pos, next, w - 1); }
  }

  lemma {:induction false} StandingClose(schema: seq<Entry>, items: seq<Item>, start: seq<nat>, span: seq<nat>,
                                         pos: seq<nat>, next: seq<nat>, w: nat := 3)
    requires Places(schema, items, start, span, pos, next)
    ensures Standing(schema, items, start, span, pos, next, w)
  {
    if w > 0 { StandingClose(schema, items, start, span, pos, next, w - 1); }
  }

  /** Moving within the range of one entry. */
  lemma {:induction false} StandingMoved(schema: seq<Entry>, items: seq<Item>, start: seq<nat>, span: seq<nat>,
                                         pos: seq<nat>, next: seq<nat>, k: nat, p: nat, n: nat)
    requires Standing(schema, items, start, span, pos, next) && k < |schema| && Sane(schema, k)
    requires |start| == |span| == |pos| == |next| == |schema|
    requires Placed(schema, items, k, start[k], span[k], p, n)
    ensures Standing(schema, items, start, span, pos[k := p], next[k := n])
  {
    StandingOpen(schema, items, start, span, pos, next);
    StandingClose(schema, items, start, span, pos[k := p], next[k := n]);
  }

  lemma {:induction false} StandingAt(schema: seq<Entry>, items: seq<Item>, start: seq<nat>, span: seq<nat>,
                                      pos: seq<nat>, next: seq<nat>, k: nat)
    requires Standing(schema, items, start, span, pos, next) && k < |schema|
    ensures |start| == |span| == |pos| == |next| == |schema| && Sane(schema, k)
    ensures Placed(schema, items, k, start[k], span[k], pos[k], next[k])
    ensures pos[k] <= span[k] && next[k] <= |items|
  {
    StandingOpen(schema, items, start, span, pos, next);
    OffGrows(items, next[k], Hi(schema, items, k));
  }

  lemma {:induction false} StandingItem(schema: seq<Entry>, items: seq<Item>, start: seq<nat>, span: seq<nat>,
                                        pos: seq<nat>, next: seq<nat>, i: nat)
    requires Standing(schema, items, start, span, pos, next) && i < |items|
    ensures ItemOk(items[i])
  {
    StandingOpen(schema, items, start, span, pos, next);
  }

  lemma {:induction false} StandingEntry(schema: seq<Entry>, items: seq<Item>, start: seq<nat>, span: seq<nat>,
                                         pos: seq<nat>, next: seq<nat>, i: nat) returns (j: nat)
    requires Standing(schema, items, start, span, pos, next) && i < |items|
    ensures Sane(schema, j) && Matches(schema[j], items[i])
  {
    StandingOpen(schema, items, start, span, pos, next);
    j :| 0 <= j < |schema| && Matches(schema[j], items[i]);
  }

  lemma {:induction false} PlacedBefore(schema: seq<Entry>, items: seq<Item>, k: nat, start: nat, span: nat, pos: nat,
                                        next: nat)
    requires Sane(schema, k) && Placed(schema, items, k, start, span, pos, next) && pos < span
    ensures next < Hi(schema, items, k) <= |items|
  {
  }

  lemma {:induction false} PlacedItem(schema: seq<Entry>, items: seq<Item>, k: nat, start: nat, span: nat, pos: nat,
                                      next: nat, buf: bytes)
    requires Sane(schema, k) && Placed(schema, items, k, start, span, pos, next) && buf == Encode(items)
    requires next < Hi(schema, items, k) && ItemOk(items[next])
    ensures pos + |EncodeItem(items[next])| <= span && start + span <= |buf|
    ensures FirstItem(buf[start + pos..]) == Some(items[next])
  {
    ItemAt(items, next, buf);
    OffRest(items, Hi(schema, items, k));
    OffStep(items, next);
    OffGrows(items, next + 1, Hi(schema, items, k));
  }

  lemma {:induction false} StandingNext(schema: seq<Entry>, items: seq<Item>, start: seq<nat>, span: seq<nat>,
                                        pos: seq<nat>, next: seq<nat>, k: nat, it: Item, size: nat)
    requires Standing(schema, items, start, span, pos, next) && k < |schema| && Sane(schema, k)
    requires |start| == |span| == |pos| == |next| == |schema| && next[k] < Hi(schema, items, k)
    requires it == items[next[k]] && size == |EncodeItem(it)|
    ensures pos[k] + size <= span[k]
    ensures Standing(schema, items, start, span, pos[k := pos[k] + size], next[k := next[k] + 1])
    ensures Values(schema, items[next[k]..], k) ==
      (if Matches(schema[k], it) then [ValueOf(it)] else []) + Values(schema, items[next[k] + 1..], k)
  {
    StandingAt(schema, items, start, span, pos, next, k);
    PlacedNext(schema, items, k, start[k], span[k], pos[k], next[k], it, size);
    StandingMoved(schema, items, start, span, pos, next, k, pos[k] + size, next[k] + 1);
  }

  lemma {:induction false} SaneEntry(schema: seq<Entry>, k: nat)
    requires Compiles(schema) && k < |schema|
    ensures Sane(schema, k)
  {
  }

  /** The text goes on with this item; wrapped like Standing. */
  ghost predicate Begins(buf: bytes, at: nat, it: Item, w: nat := 3) {
    if w == 0 then at <= |buf| && FirstItem(buf[at..]) == Some(it) else Begins(buf, at, it, w - 1)
  }

  lemma {:induction false} BeginsIs(buf: bytes, at: nat, it: Item, w: nat := 3)
    ensures Begins(buf, at, it, w) <==> at <= |buf| && FirstItem(buf[at..]) == Some(it)
  {
    if w > 0 { BeginsIs(buf, at, it, w - 1); }
  }

  /** The item that the position of k is at, with what the first pass has made sure of. */
  lemma {:induction false} StandingHere(schema: seq<Entry>, items: seq<Item>, start: seq<nat>, span: seq<nat>,
                                        pos: seq<nat>, next: seq<nat>, k: nat, buf: bytes)
    requires Standing(schema, items, start, span, pos, next) && k < |schema| && buf == Encode(items)
    requires |start| == |span| == |pos| == |next| == |schema| && Sane(schema, k) && pos[k] < span[k]
    ensures next[k] < Hi(schema, items, k) && pos[k] + |EncodeItem(items[next[k]])| <= span[k]
    ensures start[k] + span[k] <= |buf| && Begins(buf, start[k] + pos[k], items[next[k]])
  {
    StandingAt(schema, items, start, span, pos, next, k);
    PlacedBefore(schema, items, k, start[k], span[k], pos[k], next[k]);
    StandingItem(schema, items, start, span, pos, next, next[k]);
    PlacedItem(schema, items, k, start[k], span[k], pos[k], next[k], buf);
    BeginsIs(buf, start[k] + pos[k], items[next[k]]);
  }

  lemma {:induction false} PlacedNext(schema: seq<Entry>, items: seq<Item>, k: nat, start: nat, span: nat, pos: nat,
                                      next: nat, it: Item, size: nat)
    requires Sane(schema, k) && Placed(schema, items, k, start, span, pos, next) && next < Hi(schema, items, k)
    requires it == items[next] && size == |EncodeItem(it)|
    ensures pos + size <= span && Placed(schema, items, k, start, span, pos + size, next + 1)
    ensures Values(schema, items[next..], k) ==
      (if Matches(schema[k], it) then [ValueOf(it)] else []) + Values(schema, items[next + 1..], k)
  {
    OffStep(items, next);
    OffGrows(items, next + 1, Hi(schema, items, k));
    ValuesHead(schema, items[next..], k);
    assert items[next..][1..] == items[next + 1..];
  }

  /** Where the first pass leaves the parser. */
  lemma {:induction false} ScannedStands(schema: seq<Entry>, items: seq<Item>, buf: bytes, start: seq<nat>,
                                         span: seq<nat>, count: seq<nat>, pos: seq<nat>, next: seq<nat>)
    requires Scanned(schema, items, |buf|, start, span, count) && buf == Encode(items) && Compiles(schema)
    requires |pos| == |next| == |schema| && forall k :: 0 <= k < |schema| ==> pos[k] == 0
    requires forall k :: 0 <= k < |schema| ==> next[k] == Lo(schema, items, k)
    ensures Standing(schema, items, start, span, pos, next)
  {
    ScannedOpen(schema, items, |buf|, start, span, count);
    forall k: nat | k < |schema| ensures Placed(schema, items, k, start[k], span[k], pos[k], next[k]) {
      RangeFacts(schema, items, k);
      OffRest(items, |items|);
    }
    StandingClose(schema, items, start, span, pos, next);
  }

  /** After the loop, the counts alone decide whether the text is a message. */
  lemma {:induction false} CountsDecide(schema: seq<Entry>, items: seq<Item>, text: bytes, start: seq<nat>,
                                        span: seq<nat>, count: seq<nat>)
    requires Compiles(schema) && |count| == |schema| && Split(text) == Some(items)
    requires Scanned(schema, items, |text|, start, span, count)
    ensures IsMessage(schema, text) <==> forall k :: 0 <= k < |schema| ==> CountOk(schema[k].cardinality, count[k])
  {
    ScannedOpen(schema, items, |text|, start, span, count);
    assert forall k :: 0 <= k < |schema| ==> count[k] == |Values(schema, items, k)|;
  }

  lemma {:induction false} AcceptedExactly(schema: seq<Entry>, text: bytes)
    requires Compiles(schema)
    ensures IsMessage(schema, text) ==> Allowed(schema, Split(text).value) && text == Encode(Split(text).value)
    ensures !IsMessage(schema, text) ==> forall its :: Allowed(schema, its) ==> Encode(its) != text
  {
    forall its | Allowed(schema, its) && Encode(its) == text ensures IsMessage(schema, text) {
      MessageExact(schema, text, its);
    }
    MessageExact(schema, text, []);
  }

  ghost function LoAll(schema: seq<Entry>, items: seq<Item>): (r: seq<nat>)
    requires Compiles(schema)
    ensures |r| == |schema| && forall k :: 0 <= k < |schema| ==> r[k] == Lo(schema, items, k)
  {
    seq(|schema|, k requires 0 <= k < |schema| => Lo(schema, items, k))
  }

  class Parser {
    const schema: seq<Entry>
    var buf: bytes
    var start: seq<nat>
    var span: seq<nat>
    var pos: seq<nat>
    ghost var items: seq<Item>
    ghost var next: seq<nat>

    constructor (schema: seq<Entry>)
      ensures this.schema == schema
    {
      this.schema := schema;
      buf, start, span, pos, items, next := [], [], [], [], [], [];
    }

    ghost predicate Valid()
      reads this
    {
      && Compiles(schema) && buf == Encode(items) && Standing(schema, items, start, span, pos, next)
      && |start| == |span| == |pos| == |next| == |schema|
    }

    /** The values of entry k that Get has not returned yet. */
    ghost function Left(k: nat): seq<Value>
      requires Valid() && k < |schema|
      reads this
    {
      StandingAt(schema, items, start, span, pos, next, k);
      Values(schema, items[next[k]..], k)
    }

    /** One round of the loop of Parser_Init. */
    method ScanItem(text: bytes, p: nat, count: seq<nat>) returns (ok: bool, end: nat, count': seq<nat>)
      requires Compiles(schema) && buf == text && p < |text| && |start| == |span| == |count| == |schema|
      requires Splitting(text, items, p) && Scanned(schema, items, |text|, start, span, count)
      modifies `start, `span, `items
      ensures |start| == |span| == |count'| == |schema|
      ensures !ok ==> !IsMessage(schema, text)
      ensures ok ==> p < end <= |text| && Splitting(text, items, end)
      ensures ok ==> Scanned(schema, items, |text|, start, span, count')
    {
      count' := count;
      var got, id, tag, len, e := NextItem(buf, p);
      if !got {
        SplitStuck(text, items, p);
        return false, p, count';
      }
      ghost var it := FirstItem(text[p..]).value;
      end := e;
      SplitStep(text, items, p, it, end);
      var found, k := FindEntry(schema, id, tag, len, it);
      if !found {
        UnknownItem(schema, text, items, it, end);
        return false, p, count';
      }
      RecordItem(text, p, end, k, count, it);
      count' := count[k := count[k] + 1];
      ok := true;
    }

    /** The case of entry k in that round. */
    method RecordItem(text: bytes, p: nat, end: nat, k: nat, count: seq<nat>, ghost it: Item)
      requires Compiles(schema) && buf == text && p < |text| && |start| == |span| == |count| == |schema|
      requires Scanned(schema, items, |text|, start, span, count) && ItemOk(it) && k < |schema|
      requires Matches(schema[k], it) && |Encode(items)| == p && |Encode(items + [it])| == end
      modifies `start, `span, `items
      ensures |start| == |span| == |schema| && items == old(items) + [it]
      ensures Scanned(schema, items, |text|, start, span, count[k := count[k] + 1])
    {
      ghost var start' := if start[k] == |text| then p else start[k];
      ScannedMore(schema, items, |text|, start, span, count, it, k, start');
      if start[k] == |buf| {
        start := start[k := p];
      }
      assert start == old(start)[k := start'];
      span := span[k := end - start[k]];
      items := items + [it];
    }

    /** The loop of Parser_Init: whether the text is made of complete items of known entries. */
    method ScanItems(text: bytes) returns (ok: bool, count: seq<nat>)
      requires Compiles(schema) && buf == text && |start| == |span| == |schema|
      requires forall k :: 0 <= k < |schema| ==> start[k] == |text| && span[k] == 0
      modifies `start, `span, `items
      ensures |start| == |span| == |count| == |schema|
      ensures !ok ==> !IsMessage(schema, text)
      ensures ok ==> Split(text) == Some(items) && Scanned(schema, items, |text|, start, span, count)
    {
      count := seq(|schema|, _ => 0);
      items := [];
      ScannedClose(schema, items, |text|, start, span, count);
      SplitStart(text);
      var p, left := 0, |text|;
      while left > 0
        invariant p + left == |text| && Splitting(text, items, p)
        invariant |start| == |span| == |count| == |schema| && Scanned(schema, items, |text|, start, span, count)
      {
        var end;
        ok, end, count := ScanItem(text, p, count);
        if !ok {
          return;
        }
        left := left - (end - p);
        p := end;
      }
      SplitEnd(text, items);
      ok := true;
    }

    /** The counts at the end of Parser_Init against the cardinalities */
    method CheckCounts(count: seq<nat>) returns (ok: bool)
      requires |count| == |schema|
      ensures ok <==> forall k :: 0 <= k < |schema| ==> CountOk(schema[k].cardinality, count[k])
    {
      for k := 0 to |schema|
        invariant forall j :: 0 <= j < k ==> CountOk(schema[j].cardinality, count[j])
      {
        if !CountOk(schema[k].cardinality, count[k]) {
          return false;
        }
      }
      ok := true;
    }

    /** Parser_Init: it accepts exactly the messages of the schema, and then everything is still to be got. */
    method Init(text: bytes) returns (ok: bool)
      requires Compiles(schema)
      modifies this
      ensures ok <==> IsMessage(schema, text)
      ensures ok ==> Valid() && buf == text == Encode(items) && items == Split(text).value && Allowed(schema, items)
      ensures !ok ==> forall its :: Allowed(schema, its) ==> Encode(its) != text
      ensures ok ==> forall k :: 0 <= k < |schema| ==> Left(k) == Values(schema, items, k)
    {
      buf := text;
      start := seq(|schema|, _ => |text|);
      span := seq(|schema|, _ => 0);
      pos := seq(|schema|, _ => 0);
      var count;
      ok, count := ScanItems(text);
      AcceptedExactly(schema, text);
      if !ok {
        return;
      }
      ok := CheckCounts(count);
      CountsDecide(schema, items, text, start, span, count);
      StandAtStart(text, count);
    }

    /** Every entry is at its first item. */
    ghost method StandAtStart(text: bytes, count: seq<nat>)
      requires Compiles(schema) && buf == text && Split(text) == Some(items)
      requires |start| == |span| == |pos| == |count| == |schema| && forall k :: 0 <= k < |schema| ==> pos[k] == 0
      requires Scanned(schema, items, |text|, start, span, count)
      modifies `next
      ensures Valid() && forall k :: 0 <= k < |schema| ==> Left(k) == Values(schema, items, k)
    {
      next := LoAll(schema, items);
      EncodedSplit(text);
      ScannedStands(schema, items, text, start, span, count, pos, next);
      LeftAll();
    }

    lemma {:induction false} LeftAll()
      requires Valid() && next == LoAll(schema, items)
      ensures forall k :: 0 <= k < |schema| ==> Left(k) == Values(schema, items, k)
    {
      forall k: nat | k < |schema| ensures Left(k) == Values(schema, items, k) {
        StandingAt(schema, items, start, span, pos, next, k);
        LeftInRange(schema, items, k, next[k]);
      }
    }

    /** A position is at the end of its range exactly when nothing is left. */
    lemma {:induction false} DrainedAtSpan(k: nat)
      requires Valid() && k < |schema|
      ensures Left(k) == [] <==> pos[k] == span[k]
      ensures Left(k) == [] <==> next[k] == Hi(schema, items, k)
    {
      StandingAt(schema, items, start, span, pos, next, k);
      LeftInRange(schema, items, k, next[k]);
      OffGrows(items, next[k], Hi(schema, items, k));
    }

    /** One item further in the range of k. */
    lemma {:induction false} AdvanceFacts(k: nat, it: Item, size: nat)
      requires Valid() && k < |schema| && next[k] < Hi(schema, items, k)
      requires it == items[next[k]] && size == |EncodeItem(it)|
      ensures pos[k] + size <= span[k]
      ensures Standing(schema, items, start, span, pos[k := pos[k] + size], next[k := next[k] + 1])
      ensures Left(k) ==
        (if Matches(schema[k], it) then [ValueOf(it)] else []) + Values(schema, items[next[k] + 1..], k)
    {
      StandingNext(schema, items, start, span, pos, next, k, it, size);
    }

    /** An item with the type and id of an entry is an item of that entry. */
    lemma {:induction false} SameCase(k: nat, i: nat)
      requires Valid() && k < |schema| && i < |items|
      requires items[i].tag == TypeOf(schema[k].kind) && items[i].id == schema[k].id
      ensures Matches(schema[k], items[i])
    {
      var j := StandingEntry(schema, items, start, span, pos, next, i);
      CaseUnique(schema, j, k, items[i]);
    }

    /** One round of the loop of a Get, whose checks are assertions only: the item, and where it ends. */
    method ReadItem(at: nat, left: nat, ghost it: Item) returns (id: nat, tag: nat, body: bytes, size: nat)
      requires at + left <= |buf| && Begins(buf, at, it) && |EncodeItem(it)| <= left
      ensures id == it.id && tag == it.tag && body == it.body && size == |EncodeItem(it)|
    {
      ghost var s := buf[at..];
      BeginsIs(buf, at, it);
      assert FirstItem(s) == Some(it) && left >= HEADER;
      assert buf[at..at + 2] == s[..2] && buf[at + 2..at + 4] == s[2..4];
      id, tag := FromLe(buf[at..at + 2]), FromLe(buf[at + 2..at + 4]);
      if IsUInt(tag) {
        assert left - HEADER >= UIntSize(tag);
        body := buf[at + HEADER..at + HEADER + UIntSize(tag)];
        assert body == s[HEADER..HEADER + UIntSize(tag)];
        size := HEADER + UIntSize(tag);
      } else {
        assert IsBlob(tag) && left - HEADER >= 4;
        assert buf[at + 4..at + 8] == s[4..8];
        var payloadLen := FromLe(buf[at + 4..at + 8]);
        assert left - HEADER - 4 >= payloadLen;
        body := buf[at + HEADER + 4..at + HEADER + 4 + payloadLen];
        assert body == s[HEADER + 4..HEADER + 4 + payloadLen];
        size := HEADER + 4 + payloadLen;
      }
    }

    /** Parser_Get: the next value of entry k, if there is one left */
    method Get(k: nat) returns (found: bool, v: Value)
      requires Valid() && k < |schema|
      modifies `pos, `next
      ensures Valid() && (found <==> old(Left(k)) != [])
      ensures if found then old(Left(k)) == [v] + Left(k) else Left(k) == [] && pos[k] == span[k]
      ensures forall j :: 0 <= j < |schema| && j != k ==> pos[j] == old(pos)[j] && Left(j) == old(Left(j))
    {
      v := Number(0);
      StandingAt(schema, items, start, span, pos, next, k);
      var left := span[k] - pos[k];
      while left > 0
        invariant Valid() && pos[k] <= span[k] && left == span[k] - pos[k] && Left(k) == old(Left(k))
        invariant forall j :: 0 <= j < |schema| && j != k ==> pos[j] == old(pos)[j] && Left(j) == old(Left(j))
      {
        found, v, left := Round(k, left);
        if found {
          return;
        }
      }
      DrainedAtSpan(k);
      found := false;
    }

    /** One round of that loop: an item of entry k ends it, any other is passed over. */
    method Round(k: nat, left: nat) returns (found: bool, v: Value, left': nat)
      requires Valid() && k < |schema| && pos[k] < span[k] && left == span[k] - pos[k]
      modifies `pos, `next
      ensures Valid() && pos[k] <= span[k] && left' < left && left' == span[k] - pos[k]
      ensures old(Left(k)) == (if found then [v] else []) + Left(k)
      ensures forall j :: 0 <= j < |schema| && j != k ==> pos[j] == old(pos)[j] && Left(j) == old(Left(j))
    {
      ghost var n := next[k];
      var it := Step(k, left);
      left' := left - it.1;
      found := it.0.tag == TypeOf(schema[k].kind) && it.0.id == schema[k].id;
      v := Number(0);
      if found {
        SameCase(k, n);
        v := if schema[k].kind.UInt? then Number(FromLe(it.0.body)) else Blob(it.0.body);
      }
      assert forall j :: 0 <= j < |schema| && j != k ==> next[j] == old(next)[j];
    }

    /** The position of k moves past one item. */
    method Step(k: nat, left: nat) returns (it: (Item, nat))
      requires Valid() && k < |schema| && pos[k] < span[k] && left == span[k] - pos[k]
      modifies `pos, `next
      ensures Valid() && old(next)[k] < |items| && it.0 == items[old(next)[k]]
      ensures pos[k] <= span[k] && 0 < it.1 <= left && left - it.1 == span[k] - pos[k]
      ensures pos == old(pos)[k := pos[k]] && next == old(next)[k := old(next)[k] + 1]
      ensures old(Left(k)) == (if Matches(schema[k], it.0) then [ValueOf(it.0)] else []) + Left(k)
    {
      SaneEntry(schema, k);
      StandingHere(schema, items, start, span, pos, next, k, buf);
      ghost var n := next[k];
      var id, tag, body, size := ReadItem(start[k] + pos[k], left, items[n]);
      it := (Item(id, tag, body), size);
      MovePast(k, size, items[n]);
    }

    method MovePast(k: nat, size: nat, ghost it: Item)
      requires Valid() && k < |schema| && next[k] < Hi(schema, items, k)
      requires it == items[next[k]] && size == |EncodeItem(it)|
      modifies `pos, `next
      ensures Valid() && pos[k] <= span[k] && pos[k] == old(pos)[k] + size
      ensures pos == old(pos)[k := pos[k]] && next == old(next)[k := old(next)[k] + 1]
      ensures old(Left(k)) == (if Matches(schema[k], it) then [ValueOf(it)] else []) + Left(k)
    {
      AdvanceFacts(k, it, size);
      pos := pos[k := pos[k] + size];
      next := next[k := next[k] + 1];
    }

    /** Parser_Reset */
    method Reset(k: nat)
      requires Valid() && k < |schema|
      modifies `pos, `next
      ensures Valid() && Left(k) == Values(schema, items, k)
      ensures forall j :: 0 <= j < |schema| && j != k ==> Left(j) == old(Left(j))
    {
      StandingAt(schema, items, start, span, pos, next, k);
      ghost var lo := Lo(schema, items, k);
      StandingMoved(schema, items, start, span, pos, next, k, 0, lo);
      LeftInRange(schema, items, k, lo);
      pos := pos[k := 0];
      next := next[k := lo];
    }

    /** Parser_Forward */
    method Forward(k: nat)
      requires Valid() && k < |schema|
      modifies `pos, `next
      ensures Valid() && Left(k) == []
      ensures forall j :: 0 <= j < |schema| && j != k ==> Left(j) == old(Left(j))
    {
      StandingAt(schema, items, start, span, pos, next, k);
      ghost var hi := Hi(schema, items, k);
      StandingMoved(schema, items, start, span, pos, next, k, span[k], hi);
      LeftInRange(schema, items, k, hi);
      pos := pos[k := span[k]];
      next := next[k := hi];
    }

    /** Parser_GotEverything */
    method GotEverything() returns (b: bool)
      requires Valid()
      ensures b <==> forall k :: 0 <= k < |schema| ==> Left(k) == []
    {
      for k := 0 to |schema|
        invariant forall j :: 0 <= j < k ==> Left(j) == []
      {
        DrainedAtSpan(k);
        if pos[k] != span[k] {
          return false;
        }
      }
      b := true;
    }
  }
}
