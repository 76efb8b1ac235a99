/** The emitted writer: every Add appends one item to the output buffer. */
module BProtoWriter {
  import opened Bytes
  import opened Common
  import opened BProto

  lemma {:induction false} EncodeConcat(a: seq<Item>, b: seq<Item>)
    ensures Encode(a + b) == Encode(a) + Encode(b)
  {
    if a == [] {
      assert a + b == b;
    } else {
      assert (a + b)[1..] == a[1..] + b;
      EncodeConcat(a[1..], b);
    }
  }

  lemma {:induction false} EncodeSnoc(items: seq<Item>, it: Item)
    ensures Encode(items + [it]) == Encode(items) + EncodeItem(it)
  {
    EncodeConcat(items, [it]);
    assert [it][1..] == [] && Encode([it]) == EncodeItem(it) + Encode([]);
  }

  /** An item belongs to one entry at most. */
  lemma {:induction false} MatchUnique(schema: seq<Entry>, it: Item, j: nat, k: nat)
    requires Compiles(schema) && j < |schema| && k < |schema| && Matches(schema[j], it) && Matches(schema[k], it)
    ensures j == k
  {
    assert schema[j].id == schema[k].id && SwitchOf(TypeOf(schema[j].kind)) == SwitchOf(TypeOf(schema[k].kind));
  }

  /** The items are well-formed, known, and counted per entry. */
  ghost predicate Counted(schema: seq<Entry>, items: seq<Item>, count: seq<nat>) {
    && Compiles(schema) && AllKnown(schema, items) && |count| == |schema|
    && (forall i :: 0 <= i < |items| ==> ItemOk(items[i]))
    && (forall k :: 0 <= k < |schema| ==> count[k] == |Values(schema, items, k)|)
  }

  /** Counted, wrapped so that the methods carry it along by name. */
  ghost predicate Tally(schema: seq<Entry>, items: seq<Item>, count: seq<nat>, n: nat := 3) {
    if n == 0 then Counted(schema, items, count) else Tally(schema, items, count, n - 1)
  }

  lemma {:induction false} TallyOpen(schema: seq<Entry>, items: seq<Item>, count: seq<nat>, n: nat := 3)
    requires Tally(schema, items, count, n)
    ensures Counted(schema, items, count)
  {
    if n > 0 { TallyOpen(schema, items, count, n - 1); }
  }

  lemma {:induction false} TallyClose(schema: seq<Entry>, items: seq<Item>, count: seq<nat>, n: nat := 3)
    requires Counted(schema, items, count)
    ensures Tally(schema, items, count, n)
  {
    if n > 0 { TallyClose(schema, items, count, n - 1); }
  }

  /** Entry k has one more value, v; the other entries have what they had. */
  ghost predicate Gained(schema: seq<Entry>, items: seq<Item>, items': seq<Item>, k: nat, v: Value)
    requires Compiles(schema)
  {
    forall j :: 0 <= j < |schema| ==>
      Values(schema, items', j) == Values(schema, items, j) + if j == k then [v] else []
  }

  lemma {:induction false} TallyMore(schema: seq<Entry>, items: seq<Item>, count: seq<nat>, k: nat, it: Item)
    requires Compiles(schema) && k < |schema| == |count|
    requires Tally(schema, items, count) && ItemOk(it) && Matches(schema[k], it)
    ensures Tally(schema, items + [it], count[k := count[k] + 1])
    ensures Gained(schema, items, items + [it], k, ValueOf(it))
  {
    var more := items + [it];
    TallyOpen(schema, items, count);
    assert more[..|items|] == items;
    forall j | 0 <= j < |schema|
      ensures Values(schema, more, j) == Values(schema, items, j) + if j == k then [ValueOf(it)] else []
    {
      if Matches(schema[j], it) {
        MatchUnique(schema, it, j, k);
      }
    }
    forall i | 0 <= i < |more| ensures exists j :: 0 <= j < |schema| && Matches(schema[j], more[i]) {
      if i < |items| {
        assert more[i] == items[i];
      } else {
        assert Matches(schema[k], more[i]);
      }
    }
    TallyClose(schema, more, count[k := count[k] + 1]);
  }

  lemma {:induction false} UIntItem(e: Entry, v: nat, it: Item)
    requires EntryOk(e) && e.kind.UInt? && v < Pow256(e.kind.bytes)
    requires it == Item(e.id, TypeOf(e.kind), Le(v, e.kind.bytes))
    ensures EncodeItem(it) == Le(e.id, 2) + Le(TypeOf(e.kind), 2) + Le(v, e.kind.bytes)
    ensures ItemOk(it) && Matches(e, it) && ValueOf(it) == Number(v)
  {
    LeRoundTrip(v, e.kind.bytes);
  }

  /** The item of a data entry. */
  function BlobOf(e: Entry, data: bytes): Item
    requires !e.kind.UInt?
  {
    Item(e.id, TypeOf(e.kind), data)
  }

  ghost predicate BlobFits(e: Entry, data: bytes) {
    EntryOk(e) && !e.kind.UInt? && |data| < UINT32_LIMIT && (e.kind.ConstData? ==> |data| == e.kind.size)
  }

  lemma {:induction false} BlobItem(e: Entry, data: bytes, it: Item)
    requires BlobFits(e, data) && it == BlobOf(e, data)
    ensures EncodeItem(it) == Le(e.id, 2) + Le(TypeOf(e.kind), 2) + Le(|data|, 4) + data
    ensures ItemOk(it) && Matches(e, it) && ValueOf(it) == Blob(data)
  {
  }

  lemma {:induction false} BlobAdded(schema: seq<Entry>, items: seq<Item>, count: seq<nat>, k: nat, data: bytes,
                                     text: bytes)
    requires Compiles(schema) && k < |schema| == |count| && Tally(schema, items, count) && BlobFits(schema[k], data)
    requires text == Encode(items) + (Le(schema[k].id, 2) + Le(TypeOf(schema[k].kind), 2) + Le(|data|, 4)) + data
    ensures var items' := items + [BlobOf(schema[k], data)];
      && text == Encode(items') && Tally(schema, items', count[k := count[k] + 1])
      && Gained(schema, items, items', k, Blob(data))
  {
    var it := BlobOf(schema[k], data);
    BlobItem(schema[k], data, it);
    EncodeSnoc(items, it);
    TallyMore(schema, items, count, k, it);
    Regroup(Encode(items), Le(schema[k].id, 2) + Le(TypeOf(schema[k].kind), 2) + Le(|data|, 4), data);
  }

  lemma {:induction false} Regroup(a: bytes, b: bytes, c: bytes)
    ensures a + b + c == a + (b + c)
  {
  }

  lemma {:induction false} ValuesConcat(schema: seq<Entry>, a: seq<Item>, b: seq<Item>, k: nat)
    requires k < |schema| && EntryOk(schema[k])
    ensures Values(schema, a + b, k) == Values(schema, a, k) + Values(schema, b, k)
  {
    if b == [] {
      assert a + b == a;
    } else {
      assert (a + b)[..|a + b| - 1] == a + b[..|b| - 1];
      ValuesConcat(schema, a, b[..|b| - 1], k);
    }
  }

  lemma {:induction false} ValuesAround(schema: seq<Entry>, before: seq<Item>, it: Item, after: seq<Item>, k: nat)
    requires k < |schema| && EntryOk(schema[k])
    ensures Values(schema, before + [it] + after, k)
      == Values(schema, before, k) + (if Matches(schema[k], it) then [ValueOf(it)] else []) + Values(schema, after, k)
  {
    ValuesConcat(schema, before + [it], after, k);
    assert (before + [it])[..|before|] == before;
  }

  /** The same entry takes it' for it. */
  lemma {:induction false} TallySwapped(schema: seq<Entry>, before: seq<Item>, it: Item, it': Item, after: seq<Item>,
                                        count: seq<nat>)
    requires Tally(schema, before + [it] + after, count) && Compiles(schema) && ItemOk(it')
    requires forall j :: 0 <= j < |schema| ==> Matches(schema[j], it) == Matches(schema[j], it')
    ensures Tally(schema, before + [it'] + after, count)
  {
    var was, now := before + [it] + after, before + [it'] + after;
    TallyOpen(schema, was, count);
    forall j | 0 <= j < |schema| ensures |Values(schema, now, j)| == |Values(schema, was, j)| {
      ValuesAround(schema, before, it, after, j);
      ValuesAround(schema, before, it', after, j);
    }
    forall i | 0 <= i < |now| ensures ItemOk(now[i]) {
      assert i != |before| ==> now[i] == was[i];
    }
    forall i | 0 <= i < |now| ensures exists j :: 0 <= j < |schema| && Matches(schema[j], now[i]) {
      var j :| 0 <= j < |schema| && Matches(schema[j], was[i]);
      assert Matches(schema[j], now[i]);
    }
    TallyClose(schema, now, count);
  }

  /** Entry k has v for the item between `before` and `after`. */
  ghost predicate Holds(schema: seq<Entry>, before: seq<Item>, after: seq<Item>, items: seq<Item>, k: nat, v: Value)
    requires Compiles(schema)
  {
    forall j :: 0 <= j < |schema| ==>
      Values(schema, items, j) == Values(schema, before, j) + (if j == k then [v] else []) + Values(schema, after, j)
  }

  lemma {:induction false} EncodeAround(before: seq<Item>, it: Item, after: seq<Item>)
    ensures Encode(before + [it] + after) == Encode(before) + EncodeItem(it) + Encode(after)
  {
    EncodeConcat(before + [it], after);
    EncodeSnoc(before, it);
  }

  lemma {:induction false} BlobRefilled(schema: seq<Entry>, before: seq<Item>, after: seq<Item>, count: seq<nat>, k: nat,
                                        data: bytes, payload: bytes, dest: nat, text: bytes)
    requires Compiles(schema) && k < |schema| == |count| && |data| == |payload|
    requires BlobFits(schema[k], data) && BlobFits(schema[k], payload)
    requires Tally(schema, before + [BlobOf(schema[k], data)] + after, count)
    requires text == Encode(before + [BlobOf(schema[k], data)] + after) && dest == |Encode(before)| + HEADER + 4
    ensures dest + |data| <= |text|
    ensures var items' := before + [BlobOf(schema[k], payload)] + after;
      && text[..dest] + payload + text[dest + |data|..] == Encode(items')
      && Tally(schema, items', count) && Holds(schema, before, after, items', k, Blob(payload))
  {
    var was, it := BlobOf(schema[k], data), BlobOf(schema[k], payload);
    var header := Le(schema[k].id, 2) + Le(TypeOf(schema[k].kind), 2) + Le(|data|, 4);
    BlobItem(schema[k], data, was);
    BlobItem(schema[k], payload, it);
    TallySwapped(schema, before, was, it, after, count);
    EncodeAround(before, was, after);
    EncodeAround(before, it, after);
    Refill(Encode(before), header, data, payload, Encode(after), text);
    forall j | 0 <= j < |schema|
      ensures Values(schema, before + [it] + after, j)
        == Values(schema, before, j) + (if j == k then [Blob(payload)] else []) + Values(schema, after, j)
    {
      ValuesAround(schema, before, it, after, j);
      if Matches(schema[j], it) {
        MatchUnique(schema, it, j, k);
      }
    }
  }

  lemma {:induction false} Refill(a: bytes, h: bytes, data: bytes, payload: bytes, c: bytes, text: bytes)
    requires text == a + (h + data) + c
    ensures text[..|a| + |h|] + payload + text[|a| + |h| + |data|..] == a + (h + payload) + c
  {
    assert text[..|a| + |h|] == a + h;
    assert text[|a| + |h| + |data|..] == c;
  }

  predicate AtMostOnce(c: Cardinality) { c == Optional || c == Required }

  /** What an Add asserts of the count, and being there where it must, is all that Init asks of an entry. */
  lemma {:induction false} CountExact(c: Cardinality, n: nat)
    ensures CountOk(c, n) <==> (AtMostOnce(c) ==> n <= 1) && (c == Required || c == RequiredRepeated ==> n >= 1)
  {
  }

  class Writer {
    const schema: seq<Entry>
    const out: array<byte>
    var used: nat
    var count: seq<nat>
    ghost var items: seq<Item>

    ghost predicate Valid()
      reads this, out
    {
      && Compiles(schema) && |count| == |schema| && Tally(schema, items, count)
      && used <= out.Length && out[..used] == Encode(items)
    }

    /** Writer_Init */
    constructor (schema: seq<Entry>, out: array<byte>)
      requires Compiles(schema)
      ensures Valid() && items == [] && this.schema == schema && this.out == out
    {
      this.schema := schema;
      this.out := out;
      used := 0;
      count := seq(|schema|, _ => 0);
      items := [];
      new;
      TallyClose(schema, items, count);
    }

    /** The item header, behind what is there. */
    method PutHeader(id: nat, tag: nat)
      requires used + HEADER <= out.Length
      modifies `used, out
      ensures used == old(used) + HEADER && out[..used] == old(out[..used]) + (Le(id, 2) + Le(tag, 2))
    {
      CopyInto(out, used, Le(id, 2) + Le(tag, 2));
      used := used + HEADER;
    }

    /** Bytes behind what is there. */
    method Put(data: bytes)
      requires used + |data| <= out.Length
      modifies `used, out
      ensures used == old(used) + |data| && out[..used] == old(out[..used]) + data
    {
      CopyInto(out, used, data);
      used := used + |data|;
    }

    /** A header and what follows it. */
    method PutItem(id: nat, tag: nat, data: bytes)
      requires used + HEADER + |data| <= out.Length
      modifies `used, out
      ensures used == old(used) + HEADER + |data|
      ensures out[..used] == old(out[..used]) + (Le(id, 2) + Le(tag, 2) + data)
    {
      PutHeader(id, tag);
      Put(data);
    }

    /** Writer_Add for an integer entry */
    method AddUInt(k: nat, v: nat)
      requires Valid() && k < |schema| && schema[k].kind.UInt? && v < Pow256(schema[k].kind.bytes)
      requires AtMostOnce(schema[k].cardinality) ==> count[k] == 0
      requires used + HEADER + schema[k].kind.bytes <= out.Length
      modifies `used, `count, `items, out
      ensures Valid() && used == old(used) + HEADER + schema[k].kind.bytes
      ensures old(items) < items && |items| == |old(items)| + 1 && IsField(schema[k], items[|old(items)|])
      ensures Gained(schema, old(items), items, k, Number(v))
    {
      ghost var it := Item(schema[k].id, TypeOf(schema[k].kind), Le(v, schema[k].kind.bytes));
      UIntItem(schema[k], v, it);
      EncodeSnoc(items, it);
      TallyMore(schema, items, count, k, it);
      PutItem(schema[k].id, TypeOf(schema[k].kind), Le(v, schema[k].kind.bytes));
      count := count[k := count[k] + 1];
      FieldMatches(schema[k], it);
      items := items + [it];
    }

    /** Writer_Add for a data entry: room for len bytes, which the caller fills in. */
    method AddData(k: nat, len: nat) returns (dest: nat)
      requires Valid() && k < |schema| && !schema[k].kind.UInt? && len < UINT32_LIMIT
      requires schema[k].kind.ConstData? ==> len == schema[k].kind.size
      requires AtMostOnce(schema[k].cardinality) ==> count[k] == 0
      requires used + HEADER + 4 + len <= out.Length
      modifies `used, `count, `items, out
      ensures Valid() && used == old(used) + HEADER + 4 + len && dest + len == used
      ensures dest == |Encode(old(items))| + HEADER + 4
      ensures items == old(items) + [BlobOf(schema[k], out[dest..used])]
      ensures Gained(schema, old(items), items, k, Blob(out[dest..used]))
    {
      PutItem(schema[k].id, TypeOf(schema[k].kind), Le(len, 4));
      dest := used;
      used := used + len;
      ghost var data, text := out[dest..used], out[..used];
      assert text == out[..dest] + data;
      BlobAdded(schema, items, count, k, data, text);
      count := count[k := count[k] + 1];
      items := items + [BlobOf(schema[k], data)];
    }

    method Overwrite(dest: nat, data: bytes)
      requires dest + |data| <= used <= out.Length
      modifies out
      ensures out[dest..dest + |data|] == data
      ensures out[..used] == old(out[..used])[..dest] + data + old(out[..used])[dest + |data|..]
    {
      CopyInto(out, dest, data);
    }

    /** The caller fills the room that an Add of entry k has returned, now or after more Adds. */
    method Fill(dest: nat, payload: bytes, ghost k: nat, ghost before: seq<Item>, ghost after: seq<Item>)
      requires Valid() && k < |schema| && !schema[k].kind.UInt? && dest + |payload| <= used
      requires items == before + [BlobOf(schema[k], out[dest..dest + |payload|])] + after
      requires dest == |Encode(before)| + HEADER + 4
      requires |payload| < UINT32_LIMIT && (schema[k].kind.ConstData? ==> |payload| == schema[k].kind.size)
      modifies `items, out
      ensures Valid() && out[dest..dest + |payload|] == payload
      ensures items == before + [BlobOf(schema[k], payload)] + after
      ensures Holds(schema, before, after, items, k, Blob(payload))
    {
      ghost var data, text := out[dest..dest + |payload|], out[..used];
      BlobRefilled(schema, before, after, count, k, data, payload, dest, text);
      Overwrite(dest, payload);
      items := before + [BlobOf(schema[k], payload)] + after;
    }

    /** Writer_Finish, once every entry has been added as often as its cardinality wants */
    method Finish() returns (n: nat)
      requires Valid() && forall k :: 0 <= k < |schema| ==> CountOk(schema[k].cardinality, count[k])
      ensures n == used && IsMessage(schema, out[..n]) && Split(out[..n]) == Some(items)
      ensures Allowed(schema, items) && out[..n] == Encode(items)
    {
      TallyOpen(schema, items, count);
      SplitEncoded(items);
      MessageExact(schema, out[..used], items);
      n := used;
    }
  }
}
