/**
 BProto messages: the code that `bproto_generator/bproto_functions.php` emits for a message, with the message's
 entries as a value. This module has the schema, the wire format and the meaning of a parsed message.
 */
module BProto {
  import opened Bytes
  import opened Common

  const HEADER: nat := 4
  const UINT16_LIMIT: nat := 0x1_0000
  const UINT32_LIMIT: nat := 0x1_0000_0000

  const TYPE_UINT8: nat := 1
  const TYPE_UINT16: nat := 2
  const TYPE_UINT32: nat := 3
  const TYPE_UINT64: nat := 4
  const TYPE_DATA: nat := 5
  const TYPE_CONSTDATA: nat := 6

  /** The type of an entry; the size of an integer is in bytes. */
  datatype Kind = UInt(bytes: nat) | Data | ConstData(size: nat)

  datatype Cardinality = Repeated | RequiredRepeated | Optional | Required

  datatype Entry = Entry(id: nat, kind: Kind, cardinality: Cardinality)

  predicate IsSize(n: nat) { n == 1 || n == 2 || n == 4 || n == 8 }

  function TypeOf(kind: Kind): (t: nat)
    requires kind.UInt? ==> IsSize(kind.bytes)
  {
    match kind
    case UInt(n) => if n == 1 then TYPE_UINT8 else if n == 2 then TYPE_UINT16 else if n == 4 then TYPE_UINT32 else TYPE_UINT64
    case Data => TYPE_DATA
    case ConstData(_) => TYPE_CONSTDATA
  }

  /** Bytes of an integer of this type code. */
  function UIntSize(t: nat): nat
    requires TYPE_UINT8 <= t <= TYPE_UINT64
  {
    if t == TYPE_UINT8 then 1 else if t == TYPE_UINT16 then 2 else if t == TYPE_UINT32 then 4 else 8
  }

  predicate IsUInt(t: nat) { TYPE_UINT8 <= t <= TYPE_UINT64 }

  predicate IsBlob(t: nat) { t == TYPE_DATA || t == TYPE_CONSTDATA }

  /** The switch over ids that an item of type t gets to: one for every integer size, one for both data types. */
  function SwitchOf(t: nat): nat {
    if t == TYPE_CONSTDATA then TYPE_DATA else t
  }

  ghost predicate EntryOk(e: Entry) {
    && e.id < UINT16_LIMIT && (e.kind.UInt? ==> IsSize(e.kind.bytes))
    && (e.kind.ConstData? ==> e.kind.size < UINT32_LIMIT)
  }

  /** A schema for which the emitted switches have no duplicate cases; distinct ids are more than enough. */
  ghost predicate Compiles(schema: seq<Entry>) {
    && (forall k :: 0 <= k < |schema| ==> EntryOk(schema[k]))
    && (forall j, k :: 0 <= j < k < |schema| && schema[j].id == schema[k].id ==>
      SwitchOf(TypeOf(schema[j].kind)) != SwitchOf(TypeOf(schema[k].kind)))
  }

  // ---------- integers ----------

  function Le(v: nat, n: nat): (r: bytes)
    ensures |r| == n
  {
    if n == 0 then [] else [(v % 256) as byte] + Le(v / 256, n - 1)
  }

  function FromLe(s: bytes): nat {
    if s == [] then 0 else s[0] as nat + 256 * FromLe(s[1..])
  }

  function Pow256(n: nat): (r: nat)
    ensures r > 0
  {
    if n == 0 then 1 else 256 * Pow256(n - 1)
  }

  lemma {:induction false} LeRoundTrip(v: nat, n: nat)
    requires v < Pow256(n)
    ensures FromLe(Le(v, n)) == v
  {
    if n > 0 {
      LeRoundTrip(v / 256, n - 1);
    }
  }

  lemma {:induction false} FromLeBound(s: bytes)
    ensures FromLe(s) < Pow256(|s|)
  {
    if s != [] {
      FromLeBound(s[1..]);
    }
  }

  lemma {:induction false} PowValues()
    ensures Pow256(0) == 1 && Pow256(1) == 256 && Pow256(2) == UINT16_LIMIT && Pow256(4) == UINT32_LIMIT
  {
    assert Pow256(3) == 256 * Pow256(2);
    assert Pow256(4) == 256 * Pow256(3);
  }

  // ---------- items ----------

  /** One item of a message: for an integer its bytes, for data the payload. */
  datatype Item = Item(id: nat, tag: nat, body: bytes)

  /** What an item carries, as the Get functions return it. */
  datatype Value = Number(v: nat) | Blob(data: bytes)

  ghost predicate ItemOk(it: Item) {
    && it.id < UINT16_LIMIT
    && ((IsUInt(it.tag) && |it.body| == UIntSize(it.tag)) || (IsBlob(it.tag) && |it.body| < UINT32_LIMIT))
  }

  function ValueOf(it: Item): Value {
    if IsUInt(it.tag) then Number(FromLe(it.body)) else Blob(it.body)
  }

  function EncodeItem(it: Item): (r: bytes)
    ensures |r| == HEADER + (if IsUInt(it.tag) then 0 else 4) + |it.body|
  {
    Le(it.id, 2) + Le(it.tag, 2) + (if IsUInt(it.tag) then [] else Le(|it.body|, 4)) + it.body
  }

  function Encode(items: seq<Item>): bytes {
    if items == [] then [] else EncodeItem(items[0]) + Encode(items[1..])
  }

  /** The item at the front of s, if there is a complete one of a known type. */
  function FirstItem(s: bytes): (r: Option<Item>)
    ensures r.Some? ==> |EncodeItem(r.value)| <= |s|
  {
    if |s| < HEADER then None
    else
      var id, t := FromLe(s[..2]), FromLe(s[2..4]);
      if IsUInt(t) then
        if |s| < HEADER + UIntSize(t) then None else Some(Item(id, t, s[HEADER..HEADER + UIntSize(t)]))
      else if IsBlob(t) then
        if |s| < HEADER + 4 || |s| - HEADER - 4 < FromLe(s[4..8]) then None
        else Some(Item(id, t, s[HEADER + 4..HEADER + 4 + FromLe(s[4..8])]))
      else None
  }

  /** The items that s is made of, or None if it is not a sequence of complete items. */
  function Split(s: bytes): Option<seq<Item>>
    decreases |s|
  {
    if s == [] then Some([])
    else
      var it := FirstItem(s);
      if it.None? then None
      else
        var rest := Split(s[|EncodeItem(it.value)|..]);
        if rest.None? then None else Some([it.value] + rest.value)
  }

  lemma {:induction false} FirstOfEncoded(it: Item, rest: bytes)
    requires ItemOk(it)
    ensures FirstItem(EncodeItem(it) + rest) == Some(it)
    ensures (EncodeItem(it) + rest)[|EncodeItem(it)|..] == rest
  {
    var s := EncodeItem(it) + rest;
    PowValues();
    LeRoundTrip(it.id, 2);
    LeRoundTrip(it.tag, 2);
    assert s[..2] == Le(it.id, 2) && s[2..4] == Le(it.tag, 2);
    if IsUInt(it.tag) {
      assert s[HEADER..HEADER + UIntSize(it.tag)] == it.body;
    } else {
      LeRoundTrip(|it.body|, 4);
      assert s[4..8] == Le(|it.body|, 4);
      assert s[HEADER + 4..HEADER + 4 + |it.body|] == it.body;
    }
  }

  lemma {:induction false} FirstItemOk(s: bytes)
    requires FirstItem(s).Some?
    ensures ItemOk(FirstItem(s).value)
  {
    PowValues();
    FromLeBound(s[..2]);
    if IsBlob(FromLe(s[2..4])) {
      FromLeBound(s[4..8]);
    }
  }

  /** Whatever parses as an item is that item's encoding. */
  lemma {:induction false} FirstItemEncodes(s: bytes)
    requires FirstItem(s).Some?
    ensures var it := FirstItem(s).value; s == EncodeItem(it) + s[|EncodeItem(it)|..]
  {
    var it := FirstItem(s).value;
    LeOfFromLe(s[..2]);
    LeOfFromLe(s[2..4]);
    assert |s[..2]| == 2 && |s[2..4]| == 2;
    if IsUInt(it.tag) {
      assert EncodeItem(it) == s[..2] + s[2..4] + [] + it.body;
      Joined(s, 4, |EncodeItem(it)|);
    } else {
      LeOfFromLe(s[4..8]);
      assert |s[4..8]| == 4 && |it.body| == FromLe(s[4..8]);
      assert EncodeItem(it) == s[..2] + s[2..4] + s[4..8] + it.body;
      Joined(s, 8, |EncodeItem(it)|);
    }
  }

  lemma {:induction false} Joined(s: bytes, k: nat, n: nat)
    requires 4 <= k <= n <= |s|
    ensures s[..2] + s[2..4] + s[4..k] + s[k..n] == s[..n] && s[..n] + s[n..] == s
  {
    assert s[..2] + s[2..4] == s[..4];
    assert s[..4] + s[4..k] == s[..k];
    assert s[..k] + s[k..n] == s[..n];
  }

  lemma {:induction false} LeOfFromLe(s: bytes)
    ensures Le(FromLe(s), |s|) == s
  {
    if s != [] {
      LeOfFromLe(s[1..]);
    }
  }

  /** Encoding and splitting are inverse to one another. */
  lemma {:induction false} SplitEncoded(items: seq<Item>)
    requires forall i :: 0 <= i < |items| ==> ItemOk(items[i])
    ensures Split(Encode(items)) == Some(items)
  {
    if items != [] {
      FirstOfEncoded(items[0], Encode(items[1..]));
      SplitEncoded(items[1..]);
      assert Encode(items) != [] && [items[0]] + items[1..] == items;
    }
  }

  lemma {:induction false} EncodedSplit(s: bytes)
    requires Split(s).Some?
    ensures Encode(Split(s).value) == s
    ensures forall i :: 0 <= i < |Split(s).value| ==> ItemOk(Split(s).value[i])
    decreases |s|
  {
    if s != [] {
      var it := FirstItem(s).value;
      FirstItemEncodes(s);
      FirstItemOk(s);
      EncodedSplit(s[|EncodeItem(it)|..]);
      assert Split(s).value[1..] == Split(s[|EncodeItem(it)|..]).value;
    }
  }

  // ---------- fields ----------

  /** The item is one that the entry may be given. */
  predicate Matches(e: Entry, it: Item)
    requires e.kind.UInt? ==> IsSize(e.kind.bytes)
  {
    it.id == e.id && it.tag == TypeOf(e.kind) && (e.kind.ConstData? ==> |it.body| == e.kind.size)
  }

  /** The values of entry k in a message, in order. */
  function Values(schema: seq<Entry>, items: seq<Item>, k: nat): seq<Value>
    requires k < |schema| && (schema[k].kind.UInt? ==> IsSize(schema[k].kind.bytes))
  {
    if items == [] then []
    else
      Values(schema, items[..|items| - 1], k)
      + (if Matches(schema[k], items[|items| - 1]) then [ValueOf(items[|items| - 1])] else [])
  }

  predicate CountOk(c: Cardinality, n: nat) {
    match c
    case Repeated => true
    case RequiredRepeated => n >= 1
    case Optional => n <= 1
    case Required => n == 1
  }

  /** All items belong to some entry. */
  ghost predicate AllKnown(schema: seq<Entry>, items: seq<Item>)
    requires Compiles(schema)
  {
    forall i :: 0 <= i < |items| ==> exists k :: 0 <= k < |schema| && Matches(schema[k], items[i])
  }

  ghost predicate CountsOk(schema: seq<Entry>, items: seq<Item>)
    requires Compiles(schema)
  {
    forall k :: 0 <= k < |schema| ==> CountOk(schema[k].cardinality, |Values(schema, items, k)|)
  }

  /** The messages of a schema. */
  ghost predicate IsMessage(schema: seq<Entry>, s: bytes)
    requires Compiles(schema)
  {
    Split(s).Some? && AllKnown(schema, Split(s).value) && CountsOk(schema, Split(s).value)
  }

  // ---------- messages, said without the parser ----------

  /** The item is a field of the entry: its id, its type code, and a body of the right length. */
  ghost predicate IsField(e: Entry, it: Item) {
    && it.id == e.id
    && match e.kind
       case UInt(n) =>
         && (it.tag, n) in {(1, 1), (2, 2), (3, 4), (4, 8)} && |it.body| == n
       case Data => it.tag == 5 && |it.body| < 0x1_0000_0000
       case ConstData(size) => it.tag == 6 && |it.body| == size
  }

  ghost predicate IsFieldOfSome(schema: seq<Entry>, it: Item) {
    exists k :: 0 <= k < |schema| && IsField(schema[k], it)
  }

  /** Where the fields of the entry are. */
  ghost function FieldsAt(e: Entry, items: seq<Item>): set<nat> {
    set i: nat | i < |items| && IsField(e, items[i])
  }

  /**
   Every item is a field of some entry, and each entry has as many as it may: exactly one if it is required, at most
   one if it is optional, at least one if it is required and repeated, and any number if it is repeated.
   */
  ghost predicate Allowed(schema: seq<Entry>, items: seq<Item>) {
    && (forall i :: 0 <= i < |items| ==> IsFieldOfSome(schema, items[i]))
    && forall k :: 0 <= k < |schema| ==>
      var n := |FieldsAt(schema[k], items)|;
      && (schema[k].cardinality == Required ==> n == 1) && (schema[k].cardinality == Optional ==> n <= 1)
      && (schema[k].cardinality == RequiredRepeated ==> n >= 1)
  }

  lemma {:induction false} FieldMatches(e: Entry, it: Item)
    requires EntryOk(e)
    ensures IsField(e, it) <==> ItemOk(it) && Matches(e, it)
  {
  }

  lemma {:induction false} CountIs(schema: seq<Entry>, items: seq<Item>, k: nat)
    requires k < |schema| && EntryOk(schema[k]) && forall i :: 0 <= i < |items| ==> ItemOk(items[i])
    ensures |Values(schema, items, k)| == |FieldsAt(schema[k], items)|
  {
    if items == [] {
      assert FieldsAt(schema[k], items) == {};
    } else {
      var init, n := items[..|items| - 1], |items| - 1;
      CountIs(schema, init, k);
      FieldMatches(schema[k], items[n]);
      OneMoreField(schema[k], init, items[n], items);
    }
  }

  lemma {:induction false} OneMoreField(e: Entry, init: seq<Item>, it: Item, items: seq<Item>)
    requires items == init + [it]
    ensures |FieldsAt(e, items)| == |FieldsAt(e, init)| + if IsField(e, it) then 1 else 0
  {
    assert FieldsAt(e, items) == FieldsAt(e, init) + if IsField(e, it) then {|init|} else {};
  }

  lemma {:induction false} AllowedItems(schema: seq<Entry>, items: seq<Item>)
    requires Compiles(schema) && Allowed(schema, items)
    ensures forall i :: 0 <= i < |items| ==> ItemOk(items[i])
  {
    forall i | 0 <= i < |items| ensures ItemOk(items[i]) {
      assert IsFieldOfSome(schema, items[i]);
      var k :| 0 <= k < |schema| && IsField(schema[k], items[i]);
      FieldMatches(schema[k], items[i]);
    }
  }

  lemma {:induction false} OneKnown(schema: seq<Entry>, it: Item)
    requires Compiles(schema) && ItemOk(it)
    ensures IsFieldOfSome(schema, it) <==> exists k :: 0 <= k < |schema| && Matches(schema[k], it)
  {
    forall k | 0 <= k < |schema| ensures IsField(schema[k], it) <==> Matches(schema[k], it) {
      FieldMatches(schema[k], it);
    }
    if k :| 0 <= k < |schema| && Matches(schema[k], it) { assert IsField(schema[k], it); }
    if k :| 0 <= k < |schema| && IsField(schema[k], it) { assert Matches(schema[k], it); }
  }

  lemma {:induction false} KnownIs(schema: seq<Entry>, items: seq<Item>)
    requires Compiles(schema) && forall i :: 0 <= i < |items| ==> ItemOk(items[i])
    ensures AllKnown(schema, items) ==> forall i :: 0 <= i < |items| ==> IsFieldOfSome(schema, items[i])
    ensures (forall i :: 0 <= i < |items| ==> IsFieldOfSome(schema, items[i])) ==> AllKnown(schema, items)
  {
    if AllKnown(schema, items) {
      forall i | 0 <= i < |items| ensures IsFieldOfSome(schema, items[i]) {
        OneKnown(schema, items[i]);
      }
    }
    if !AllKnown(schema, items) {
      var i :| 0 <= i < |items| && !exists k :: 0 <= k < |schema| && Matches(schema[k], items[i]);
      OneKnown(schema, items[i]);
    }
  }

  lemma {:induction false} CountsAre(schema: seq<Entry>, items: seq<Item>)
    requires Compiles(schema) && forall i :: 0 <= i < |items| ==> ItemOk(items[i])
    ensures CountsOk(schema, items) && AllKnown(schema, items) ==> Allowed(schema, items)
    ensures Allowed(schema, items) ==> CountsOk(schema, items) && AllKnown(schema, items)
  {
    KnownIs(schema, items);
    forall k: nat | k < |schema| ensures |Values(schema, items, k)| == |FieldsAt(schema[k], items)| {
      CountIs(schema, items, k);
    }
  }

  /** A text is a message exactly if it is the encoding of items that the schema allows, and of these items only. */
  lemma {:induction false} MessageExact(schema: seq<Entry>, s: bytes, items: seq<Item>)
    requires Compiles(schema)
    ensures IsMessage(schema, s) ==> Allowed(schema, Split(s).value) && Encode(Split(s).value) == s
    ensures Allowed(schema, items) && Encode(items) == s ==> IsMessage(schema, s) && Split(s) == Some(items)
  {
    if IsMessage(schema, s) {
      EncodedSplit(s);
      CountsAre(schema, Split(s).value);
    }
    if Allowed(schema, items) && Encode(items) == s {
      AllowedItems(schema, items);
      SplitEncoded(items);
      CountsAre(schema, items);
    }
  }

  // ---------- the bytes on the wire ----------

  lemma {:induction false} LeBytes(v: nat, n: nat)
    ensures n >= 1 ==> Le(v, n)[0] as nat == v % 256
    ensures n >= 2 ==> Le(v, n)[1] as nat == v / 256 % 256
    ensures n >= 4 ==> Le(v, n)[2] as nat == v / 65536 % 256 && Le(v, n)[3] as nat == v / 16777216 % 256
  {
    if n >= 4 {
      Shifts(v);
      assert Le(v, n)[1..] == Le(v / 256, n - 1);
      assert Le(v / 256, n - 1)[1..] == Le(v / 256 / 256, n - 2);
      assert Le(v / 256 / 256, n - 2)[1..] == Le(v / 256 / 256 / 256, n - 3);
    } else if n >= 2 {
      assert Le(v, n)[1..] == Le(v / 256, n - 1);
    }
  }

  lemma {:induction false} Shifts(v: nat)
    ensures v / 256 / 256 == v / 65536 && v / 256 / 256 / 256 == v / 16777216
  {
  }

  /**
   The bytes of a field: id and type code in two bytes each, the low one first; then an integer, or the length of the
   data in four bytes, the lowest first, and the data.
   */
  lemma {:induction false} FieldBytes(e: Entry, it: Item)
    requires EntryOk(e) && IsField(e, it)
    ensures var s := EncodeItem(it);
      && |s| >= 4 && s[0] as nat == e.id % 256 && s[1] as nat == e.id / 256 && s[2] as nat == it.tag && s[3] == 0
      && (e.kind.UInt? ==> s[4..] == it.body)
      && (!e.kind.UInt? ==>
          && |s| >= 8 && s[8..] == it.body && s[4] as nat == |it.body| % 256 && s[5] as nat == |it.body| / 256 % 256
          && s[6] as nat == |it.body| / 65536 % 256 && s[7] as nat == |it.body| / 16777216)
  {
    FieldMatches(e, it);
    LeBytes(it.id, 2);
    LeBytes(it.tag, 2);
    LeBytes(|it.body|, 4);
    var s, length := EncodeItem(it), if IsUInt(it.tag) then [] else Le(|it.body|, 4);
    assert s == Le(it.id, 2) + Le(it.tag, 2) + length + it.body;
    assert s[..2] == Le(it.id, 2) && s[2..4] == Le(it.tag, 2) && s[4..4 + |length|] == length;
  }

  /** The number that a field of one, two or four bytes stands for; of eight, the two halves. */
  lemma {:induction false} NumberBytes(s: bytes)
    ensures |s| == 1 ==> FromLe(s) == s[0] as nat
    ensures |s| == 2 ==> FromLe(s) == s[0] as nat + 256 * s[1] as nat
    ensures |s| == 4 ==> FromLe(s) == s[0] as nat + 256 * s[1] as nat + 65536 * s[2] as nat + 16777216 * s[3] as nat
    ensures |s| == 8 ==> FromLe(s) == FromLe(s[..4]) + 0x1_0000_0000 * FromLe(s[4..])
  {
    if |s| == 2 {
      assert FromLe(s[1..]) == s[1] as nat + 256 * FromLe(s[1..][1..]);
    } else if |s| == 4 {
      assert FromLe(s[1..]) == s[1] as nat + 256 * FromLe(s[2..]);
      assert FromLe(s[2..]) == s[2] as nat + 256 * FromLe(s[3..]);
    } else if |s| == 8 {
      Split8(s, 4);
    }
  }

  lemma {:induction false} Split8(s: bytes, n: nat)
    requires n <= 4 && n <= |s|
    ensures FromLe(s) == FromLe(s[..n]) + Pow256(n) * FromLe(s[n..])
    ensures Pow256(4) == 0x1_0000_0000
  {
    PowValues();
    if n > 0 {
      Split8(s[1..], n - 1);
      assert s[1..][..n - 1] == s[..n][1..] && s[1..][n - 1..] == s[n..];
      assert 256 * (Pow256(n - 1) * FromLe(s[n..])) == Pow256(n) * FromLe(s[n..]);
    } else {
      assert s[0..] == s;
    }
  }
}
