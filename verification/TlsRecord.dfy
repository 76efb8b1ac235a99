/**
 Splitting one TLS record into several, in place: `part_tls` of packets.c and the loop over the record options in
 `desync` of desync.c. A record is a 3-byte prefix (type and version), a 2-byte length and a payload
 (section 5.1 of RFC 8446).
 */
module TlsRecord {
  import opened Bytes

  const HEADER: nat := 5
  const UINT16_LIMIT: nat := 0x1_0000

  function Be16(x: nat): (r: bytes)
    requires x < UINT16_LIMIT
    ensures |r| == 2
  {
    [(x / 256) as byte, (x % 256) as byte]
  }

  /** ANTOHS */
  function FromBe16(hi: byte, lo: byte): (r: nat)
    ensures r < UINT16_LIMIT
    ensures Be16(r) == [hi, lo]
  {
    hi as nat * 256 + lo as nat
  }

  /** A record with this length field, of which `body` is there. */
  function Record(prefix: bytes, length: nat, body: bytes): (r: bytes)
    requires |prefix| == 3 && length < UINT16_LIMIT
    ensures |r| == HEADER + |body|
  {
    prefix + Be16(length) + body
  }

  /** The bytes of a record: the prefix, the length in two bytes, the high one first, and the payload. */
  lemma {:induction false} RecordBytes(prefix: bytes, length: nat, body: bytes)
    requires |prefix| == 3 && length < UINT16_LIMIT
    ensures var s := Record(prefix, length, body);
      && |s| == 5 + |body| && s[..3] == prefix && s[3] as nat == length / 256 && s[4] as nat == length % 256 && s[5..] == body
  {
  }

  /** Complete records, back to back. */
  function Records(prefix: bytes, bodies: seq<bytes>): bytes
    requires |prefix| == 3 && forall i :: 0 <= i < |bodies| ==> |bodies[i]| < UINT16_LIMIT
  {
    if bodies == [] then []
    else Records(prefix, bodies[..|bodies| - 1]) + Record(prefix, |bodies[|bodies| - 1]|, bodies[|bodies| - 1])
  }

  function Concat(bodies: seq<bytes>): bytes {
    if bodies == [] then [] else Concat(bodies[..|bodies| - 1]) + bodies[|bodies| - 1]
  }

  lemma {:induction false} RecordsSize(prefix: bytes, bodies: seq<bytes>)
    requires |prefix| == 3 && forall i :: 0 <= i < |bodies| ==> |bodies[i]| < UINT16_LIMIT
    ensures |Records(prefix, bodies)| == |Concat(bodies)| + HEADER * |bodies|
  {
    if bodies != [] {
      RecordsSize(prefix, bodies[..|bodies| - 1]);
    }
  }

  /** What part_tls leaves: the record at `text`, with payload `body` there, cut in two after pos bytes. */
  function Parted(prefix: bytes, length: nat, body: bytes, pos: nat): (r: bytes)
    requires |prefix| == 3 && length < UINT16_LIMIT && pos <= |body| && pos <= length
    ensures |r| == HEADER + |body| + HEADER
  {
    Record(prefix, pos, body[..pos]) + Record(prefix, length - pos, body[pos..])
  }

  /** t with d written at s; wrapped so that a chain of writes is not taken apart all at once. */
  function Over(t: bytes, s: nat, d: bytes, w: nat := 3): (r: bytes)
    requires s + |d| <= |t|
    ensures |r| == |t|
  {
    if w == 0 then t[..s] + d + t[s + |d|..] else Over(t, s, d, w - 1)
  }

  lemma {:induction false} OverIs(t: bytes, s: nat, d: bytes, w: nat := 3)
    requires s + |d| <= |t|
    ensures Over(t, s, d, w) == t[..s] + d + t[s + |d|..]
  {
    if w > 0 { OverIs(t, s, d, w - 1); }
  }

  lemma {:induction false} OverAt(t: bytes, s: nat, d: bytes, k: nat)
    requires s + |d| <= |t| && k < |t|
    ensures Over(t, s, d)[k] == if s <= k < s + |d| then d[k - s] else t[k]
  {
    OverIs(t, s, d);
  }

  /** The four writes of part_tls, for a record at the front of t that is n bytes long. */
  function FourWrites(t: bytes, n: nat, pos: nat, size: nat): (r: bytes)
    requires n + 5 <= |t| && 5 + pos <= n && pos <= size < UINT16_LIMIT
    ensures |r| == |t|
  {
    var t1 := Over(t, 5 + pos + 5, t[5 + pos..n]);
    var t2 := Over(t1, 5 + pos, t1[..3]);
    var t3 := Over(t2, 3, Be16(pos));
    Over(t3, 5 + pos + 3, Be16(size - pos))
  }

  /**
   What part_tls leaves for the n bytes of t from `at` on, with `end` the end of the buffer, and what it returns: 0 if
   the cut is outside or there is no room, n if the cut is behind the record, and otherwise 5 and the record parted.
   */
  ghost predicate CutGoes(t: bytes, at: nat, end: nat, n: nat, pos: int, res: int, t': bytes)
    requires at + n <= end <= |t|
  {
    && (end - (at + n) < 5 || pos < 0 || pos + 5 > n ==> res == 0 && t' == t)
    && (end - (at + n) >= 5 && pos >= 0 && pos + 5 <= n ==>
          var prefix, length, body := t[at..at + 3], FromBe16(t[at + 3], t[at + 4]), t[at + 5..at + n];
          if length < pos then res == n && t' == t
          else res == 5 && t' == t[..at] + Parted(prefix, length, body, pos) + t[at + n + 5..])
  }

  /** part_tls on the n bytes from `at` on, in a buffer that ends at `end` */
  method PartTls(buffer: array<byte>, at: nat, end: nat, n: nat, pos: int) returns (res: int)
    requires at + n <= end <= buffer.Length
    modifies buffer
    ensures CutGoes(old(buffer[..]), at, end, n, pos, res, buffer[..])
  {
    if n < 3 || end - (at + n) < 5 || pos < 0 || pos + 5 > n {
      return 0;
    }
    var size := FromBe16(buffer[at + 3], buffer[at + 4]);
    if size < pos {
      return n;
    }
    ghost var text := buffer[..];
    WriteParted(buffer, at, n, pos, size);
    PartedText(text, at, n, pos, size);
    res := 5;
  }

  method WriteParted(buffer: array<byte>, at: nat, n: nat, pos: nat, size: nat)
    requires at + n + 5 <= buffer.Length && 5 + pos <= n && pos <= size < UINT16_LIMIT
    modifies buffer
    ensures buffer[..] == old(buffer[..])[..at] + FourWrites(old(buffer[..])[at..], n, pos, size)
  {
    ghost var head, t := buffer[..][..at], buffer[..][at..];
    assert buffer[..] == head + t;
    Move(buffer, at, 5 + pos + 5, 5 + pos, n - (5 + pos), head, t);
    ghost var t1 := Over(t, 5 + pos + 5, t[5 + pos..n]);
    Move(buffer, at, 5 + pos, 0, 3, head, t1);
    ghost var t2 := Over(t1, 5 + pos, t1[..3]);
    Put(buffer, at, 3, Be16(pos), head, t2);
    ghost var t3 := Over(t2, 3, Be16(pos));
    Put(buffer, at, 5 + pos + 3, Be16(size - pos), head, t3);
  }

  /** memcpy behind position `at` */
  method Put(buffer: array<byte>, at: nat, s: nat, d: bytes, ghost head: bytes, ghost t: bytes)
    requires buffer[..] == head + t && |head| == at && s + |d| <= |t|
    modifies buffer
    ensures buffer[..] == head + Over(t, s, d)
  {
    OverTail(head, t, s, d);
    CopyInto(buffer, at + s, d);
  }

  /** memmove behind position `at` */
  method Move(buffer: array<byte>, at: nat, dst: nat, src: nat, len: nat, ghost head: bytes, ghost t: bytes)
    requires buffer[..] == head + t && |head| == at && dst + len <= |t| && src + len <= |t|
    modifies buffer
    ensures buffer[..] == head + Over(t, dst, t[src..src + len])
  {
    assert buffer[..][at + src..at + src + len] == t[src..src + len];
    Put(buffer, at, dst, buffer[at + src..at + src + len], head, t);
  }

  lemma {:induction false} OverTail(head: bytes, t: bytes, s: nat, d: bytes)
    requires s + |d| <= |t|
    ensures Over(t, s, d) == t[..s] + d + t[s + |d|..]
    ensures head + Over(t, s, d) == (head + t)[..|head| + s] + d + (head + t)[|head| + s + |d|..]
  {
    OverIs(t, s, d);
  }

  /** Every byte after the four writes. */
  lemma {:induction false} FourWritesAt(t: bytes, n: nat, pos: nat, size: nat, k: nat)
    requires n + 5 <= |t| && 5 + pos <= n && pos <= size < UINT16_LIMIT && k < |t|
    ensures FourWrites(t, n, pos, size)[k] ==
      if 3 <= k < 5 then Be16(pos)[k - 3]
      else if 5 + pos <= k < 8 + pos then t[k - (5 + pos)]
      else if 8 + pos <= k < 10 + pos then Be16(size - pos)[k - (8 + pos)]
      else if 10 + pos <= k < n + 5 then t[k - 5]
      else t[k]
  {
    var t1 := Over(t, 5 + pos + 5, t[5 + pos..n]);
    var t2 := Over(t1, 5 + pos, t1[..3]);
    var t3 := Over(t2, 3, Be16(pos));
    OverAt(t3, 5 + pos + 3, Be16(size - pos), k);
    OverAt(t2, 3, Be16(pos), k);
    OverAt(t1, 5 + pos, t1[..3], k);
    OverAt(t, 5 + pos + 5, t[5 + pos..n], k);
    if 5 + pos <= k < 8 + pos {
      OverAt(t, 5 + pos + 5, t[5 + pos..n], k - (5 + pos));
    }
  }

  /** The four writes come to the cut record. */
  lemma {:induction false} FourWritesParted(t: bytes, n: nat, pos: nat, size: nat)
    requires n + 5 <= |t| && 5 + pos <= n && pos <= size < UINT16_LIMIT
    ensures FourWrites(t, n, pos, size) == Parted(t[..3], size, t[5..n], pos) + t[n + 5..]
  {
    var r := Parted(t[..3], size, t[5..n], pos) + t[n + 5..];
    forall k | 0 <= k < |t| ensures FourWrites(t, n, pos, size)[k] == r[k] {
      FourWritesAt(t, n, pos, size, k);
    }
  }

  lemma {:induction false} PartedText(text: bytes, at: nat, n: nat, pos: nat, size: nat)
    requires at + n + 5 <= |text| && 5 + pos <= n && pos <= size < UINT16_LIMIT
    ensures text[..at] + FourWrites(text[at..], n, pos, size)
      == text[..at] + Parted(text[at..at + 3], size, text[at + 5..at + n], pos) + text[at + n + 5..]
  {
    var t := text[at..];
    FourWritesParted(t, n, pos, size);
    assert t[..3] == text[at..at + 3] && t[5..n] == text[at + 5..at + n] && t[n + 5..] == text[at + n + 5..];
  }

  // ---------- the loop over the options ----------

  /** struct part, as far as record splitting looks at it */
  datatype Part = Part(sni: bool, pos: int)

  /** Where option i wants its cut, counted in bytes of the original payload; n is the original size. */
  function Offset(part: Part, i: nat, n: nat, host: int): int {
    if part.sni then part.pos + host - 5
    else if part.pos + i * 5 < 0 then part.pos + n + i * 5
    else part.pos
  }

  /** The cuts that the options lead to, after the cut at `from`: up to the first that goes back, too far, or over the buffer. */
  function Cuts(parts: seq<Part>, i: nat, from: nat, n: nat, host: int, bfsize: nat): (r: seq<nat>)
    requires i <= |parts|
    ensures |r| <= |parts| - i
    decreases |parts| - i
  {
    if i == |parts| then []
    else
      var o := Offset(parts[i], i, n, host);
      if o < from || bfsize - (n + 5 * i) < 5 || o + 5 > n then []
      else [o as nat] + Cuts(parts, i + 1, o, n, host, bfsize)
  }

  /** Rising positions inside a text. */
  predicate Rising(cuts: seq<nat>, size: nat) {
    && (forall i :: 0 <= i < |cuts| ==> cuts[i] <= size)
    && (forall i, j :: 0 <= i < j < |cuts| ==> cuts[i] <= cuts[j])
  }

  /** The pieces of a text before the cuts. */
  function Pieces(payload: bytes, cuts: seq<nat>): (r: seq<bytes>)
    requires Rising(cuts, |payload|)
    ensures |r| == |cuts|
  {
    seq(|cuts|, i requires 0 <= i < |cuts| => payload[(if i == 0 then 0 else cuts[i - 1])..cuts[i]])
  }

  function LastCut(cuts: seq<nat>): nat {
    if cuts == [] then 0 else cuts[|cuts| - 1]
  }

  /** Every cut is where its option wants it: from the start, from the host name, or from the end of what there is by then. */
  lemma {:induction false} CutExact(parts: seq<Part>, i: nat, from: nat, n: nat, host: int, bfsize: nat, k: nat)
    requires i <= |parts| && k < |Cuts(parts, i, from, n, host, bfsize)|
    ensures i + k < |parts|
    ensures var part, cuts := parts[i + k], Cuts(parts, i, from, n, host, bfsize);
      && cuts[k] ==
        (if part.sni then part.pos + host - 5
         else if part.pos + 5 * (i + k) < 0 then part.pos + n + 5 * (i + k)
         else part.pos)
      && (if k == 0 then from else cuts[k - 1]) <= cuts[k] && cuts[k] + 5 <= n && n + 5 * (i + k + 1) <= bfsize
    decreases k
  {
    if k > 0 {
      CutExact(parts, i + 1, Cuts(parts, i, from, n, host, bfsize)[0], n, host, bfsize, k - 1);
    }
  }

  /** The option behind the last cut cannot be met: it goes back, or the text or the buffer is too short. */
  lemma {:induction false} CutsStop(parts: seq<Part>, i: nat, from: nat, n: nat, host: int, bfsize: nat)
    requires i <= |parts|
    ensures var cuts := Cuts(parts, i, from, n, host, bfsize);
      var k := i + |cuts|;
      k < |parts| ==>
        var part := parts[k];
        var o := if part.sni then part.pos + host - 5
                 else if part.pos + 5 * k < 0 then part.pos + n + 5 * k
                 else part.pos;
        o < (if cuts == [] then from else cuts[|cuts| - 1]) || o + 5 > n || n + 5 * (k + 1) > bfsize
    decreases |parts| - i
  {
    var cuts := Cuts(parts, i, from, n, host, bfsize);
    if cuts != [] {
      CutsStop(parts, i + 1, cuts[0], n, host, bfsize);
      assert cuts[1..] == Cuts(parts, i + 1, cuts[0], n, host, bfsize);
    }
  }

  lemma {:induction false} CutsRise(parts: seq<Part>, i: nat, from: nat, n: nat, host: int, bfsize: nat)
    requires i <= |parts| && n >= HEADER
    ensures Rising(Cuts(parts, i, from, n, host, bfsize), n - HEADER)
    ensures forall k :: 0 <= k < |Cuts(parts, i, from, n, host, bfsize)| ==> from <= Cuts(parts, i, from, n, host, bfsize)[k]
    ensures n + HEADER * i <= bfsize ==> n + HEADER * (i + |Cuts(parts, i, from, n, host, bfsize)|) <= bfsize
    decreases |parts| - i
  {
    if i < |parts| {
      var o := Offset(parts[i], i, n, host);
      if !(o < from || bfsize - (n + 5 * i) < 5 || o + 5 > n) {
        CutsRise(parts, i + 1, o, n, host, bfsize);
      }
    }
  }

  /** The pieces before the cuts and the rest make up the payload; their lengths reach to the last cut. */
  lemma {:induction false} PiecesConcat(payload: bytes, cuts: seq<nat>)
    requires Rising(cuts, |payload|)
    ensures LastCut(cuts) <= |payload| && Concat(Pieces(payload, cuts)) == payload[..LastCut(cuts)]
    ensures Concat(Pieces(payload, cuts)) + payload[LastCut(cuts)..] == payload
  {
    if cuts != [] {
      var init := cuts[..|cuts| - 1];
      PiecesConcat(payload, init);
      assert Pieces(payload, cuts)[..|cuts| - 1] == Pieces(payload, init);
      assert Pieces(payload, cuts)[|cuts| - 1] == payload[LastCut(init)..LastCut(cuts)];
      FrontGrows(payload, LastCut(init), LastCut(cuts));
    }
  }

  lemma {:induction false} FrontGrows(payload: bytes, from: nat, to: nat)
    requires from <= to <= |payload|
    ensures payload[..from] + payload[from..to] == payload[..to]
  {
  }

  /** The n bytes at the front of a buffer start with a record, complete or not, and more may come behind it. */
  ghost predicate Front(text: bytes, n: nat) {
    HEADER <= n <= |text|
  }

  /** The cuts lie in the bytes there are and in the record. */
  ghost predicate Within(text: bytes, n: nat, cuts: seq<nat>) {
    Front(text, n) && Rising(cuts, n - HEADER) && Rising(cuts, FromBe16(text[3], text[4]))
  }

  /** A buffer with one record in its first n bytes, after that has been cut; wrapped like Over. */
  ghost function SplitText(text: bytes, n: nat, cuts: seq<nat>, w: nat := 3): bytes
    requires Within(text, n, cuts) && n + HEADER * |cuts| <= |text|
  {
    if w == 0 then
      SplitOk(text[HEADER..n], cuts, FromBe16(text[3], text[4]));
      SplitFrom(text[..3], FromBe16(text[3], text[4]), text[HEADER..n], cuts) + text[n + HEADER * |cuts|..]
    else SplitText(text, n, cuts, w - 1)
  }

  /** A record, as its cuts leave it: one record for each piece before a cut, and one for the rest. */
  ghost function SplitFrom(prefix: bytes, length: nat, payload: bytes, cuts: seq<nat>): bytes
    requires |prefix| == 3 && Rising(cuts, |payload|) && Rising(cuts, length) && length < UINT16_LIMIT
  {
    SplitOk(payload, cuts, length);
    Records(prefix, Pieces(payload, cuts)) + Record(prefix, length - LastCut(cuts), payload[LastCut(cuts)..])
  }

  lemma {:induction false} SplitIs(text: bytes, n: nat, cuts: seq<nat>, w: nat := 3)
    requires Within(text, n, cuts) && n + HEADER * |cuts| <= |text|
    ensures SplitText(text, n, cuts, w) ==
      SplitFrom(text[..3], FromBe16(text[3], text[4]), text[HEADER..n], cuts) + text[n + HEADER * |cuts|..]
  {
    if w > 0 { SplitIs(text, n, cuts, w - 1); }
  }

  lemma {:induction false} SplitOk(payload: bytes, cuts: seq<nat>, length: nat)
    requires Rising(cuts, |payload|) && Rising(cuts, length) && length < UINT16_LIMIT
    ensures LastCut(cuts) <= |payload| && LastCut(cuts) <= length
    ensures forall i :: 0 <= i < |cuts| ==> |Pieces(payload, cuts)[i]| < UINT16_LIMIT
  {
  }

  /**
   The cut buffer holds one record more than there are cuts, all of the original type and version; the payloads add
   up to the original one, with whatever is behind it, and the length fields to the original length.
   */
  lemma {:induction false} SplitRecords(text: bytes, n: nat, cuts: seq<nat>)
    requires Within(text, n, cuts) && n + HEADER * |cuts| <= |text|
    ensures |SplitText(text, n, cuts)| == |text|
    ensures var payload, size := text[HEADER..n], FromBe16(text[3], text[4]);
      var pieces := Pieces(payload, cuts);
      && LastCut(cuts) <= |payload| && LastCut(cuts) <= size && Concat(pieces) + payload[LastCut(cuts)..] == payload
      && |Concat(pieces)| + (size - LastCut(cuts)) == size
      && (forall i :: 0 <= i < |pieces| ==> |pieces[i]| < UINT16_LIMIT)
      && SplitText(text, n, cuts)[..n + HEADER * |cuts|] ==
        Records(text[..3], pieces) + Record(text[..3], size - LastCut(cuts), payload[LastCut(cuts)..])
  {
    var payload, size := text[HEADER..n], FromBe16(text[3], text[4]);
    PiecesConcat(payload, cuts);
    SplitOk(payload, cuts, size);
    RecordsSize(text[..3], Pieces(payload, cuts));
    SplitIs(text, n, cuts);
  }

  /** The text before the record that is still to be cut. */
  lemma {:induction false} SplitParts(text: bytes, n: nat, cuts: seq<nat>, at: nat)
    requires Within(text, n, cuts) && n + HEADER * |cuts| <= |text|
    requires at == LastCut(cuts) + HEADER * |cuts|
    ensures LastCut(cuts) <= n - HEADER && LastCut(cuts) <= FromBe16(text[3], text[4]) && |SplitText(text, n, cuts)| == |text| && at + HEADER <= n + HEADER * |cuts|
    ensures var t, payload, n' := SplitText(text, n, cuts), text[HEADER..n], n + HEADER * |cuts|;
      && (forall i :: 0 <= i < |cuts| ==> |Pieces(payload, cuts)[i]| < UINT16_LIMIT)
      && t[..at] == Records(text[..3], Pieces(payload, cuts))
      && t[at..at + 3] == text[..3] && FromBe16(t[at + 3], t[at + 4]) == FromBe16(text[3], text[4]) - LastCut(cuts)
      && t[at + HEADER..n'] == payload[LastCut(cuts)..] && t[n'..] == text[n'..]
  {
    var payload, size := text[HEADER..n], FromBe16(text[3], text[4]);
    PiecesConcat(payload, cuts);
    SplitOk(payload, cuts, size);
    RecordsSize(text[..3], Pieces(payload, cuts));
    Be16RoundTrip(size - LastCut(cuts));
    SplitIs(text, n, cuts);
    ThreeParts(Records(text[..3], Pieces(payload, cuts)), text[..3], Be16(size - LastCut(cuts)),
               payload[LastCut(cuts)..], text[n + HEADER * |cuts|..]);
  }

  lemma {:induction false} ThreeParts(a: bytes, p: bytes, l: bytes, b: bytes, c: bytes)
    requires |p| == 3 && |l| == 2
    ensures var t := a + (p + l + b) + c;
      && t[..|a|] == a && t[|a|..|a| + 3] == p && t[|a| + 3] == l[0] && t[|a| + 4] == l[1]
      && t[|a| + 5..|a| + 5 + |b|] == b && t[|a| + 5 + |b|..] == c
  {
  }

  lemma {:induction false} Be16RoundTrip(x: nat)
    requires x < UINT16_LIMIT
    ensures FromBe16(Be16(x)[0], Be16(x)[1]) == x
  {
  }

  lemma {:induction false} PiecesNext(payload: bytes, cuts: seq<nat>, cut: nat)
    requires Rising(cuts, |payload|) && LastCut(cuts) <= cut <= |payload|
    ensures Rising(cuts + [cut], |payload|)
    ensures Pieces(payload, cuts + [cut]) == Pieces(payload, cuts) + [payload[LastCut(cuts)..cut]]
  {
    var more, l, r := cuts + [cut], Pieces(payload, cuts + [cut]), Pieces(payload, cuts) + [payload[LastCut(cuts)..cut]];
    forall i | 0 <= i < |l| ensures l[i] == r[i] {
    }
  }

  lemma {:induction false} RecordsNext(prefix: bytes, bodies: seq<bytes>, body: bytes)
    requires |prefix| == 3 && |body| < UINT16_LIMIT && forall i :: 0 <= i < |bodies| ==> |bodies[i]| < UINT16_LIMIT
    ensures Records(prefix, bodies + [body]) == Records(prefix, bodies) + Record(prefix, |body|, body)
  {
    assert (bodies + [body])[..|bodies|] == bodies;
  }

  lemma {:induction false} PieceNext(prefix: bytes, payload: bytes, cuts: seq<nat>, cut: nat)
    requires |prefix| == 3 && Rising(cuts, |payload|) && LastCut(cuts) <= cut <= |payload|
    requires Rising(cuts + [cut], |payload|) && cut - LastCut(cuts) < UINT16_LIMIT
    requires forall i :: 0 <= i < |cuts| ==> |Pieces(payload, cuts)[i]| < UINT16_LIMIT
    requires forall i :: 0 <= i <= |cuts| ==> |Pieces(payload, cuts + [cut])[i]| < UINT16_LIMIT
    ensures Records(prefix, Pieces(payload, cuts + [cut]))
      == Records(prefix, Pieces(payload, cuts)) + Record(prefix, cut - LastCut(cuts), payload[LastCut(cuts)..cut])
  {
    PiecesNext(payload, cuts, cut);
    RecordsNext(prefix, Pieces(payload, cuts), payload[LastCut(cuts)..cut]);
  }

  lemma {:induction false} Rejoin(most: bytes, last: bytes, front: bytes, next: bytes, both: bytes)
    requires most == front + next && both == next + last
    ensures most + last == front + both
  {
  }

  lemma {:induction false} PartedRest(prefix: bytes, length: nat, payload: bytes, from: nat, cut: nat)
    requires |prefix| == 3 && from <= cut <= |payload| && cut <= length < UINT16_LIMIT
    ensures Parted(prefix, length - from, payload[from..], cut - from)
      == Record(prefix, cut - from, payload[from..cut]) + Record(prefix, length - cut, payload[cut..])
  {
    assert payload[from..][..cut - from] == payload[from..cut];
    assert payload[from..][cut - from..] == payload[cut..];
  }

  /** One more cut turns the last record into two. */
  lemma {:induction false} SplitFromNext(prefix: bytes, length: nat, payload: bytes, cuts: seq<nat>, cut: nat)
    requires |prefix| == 3 && Rising(cuts, |payload|) && Rising(cuts, length) && length < UINT16_LIMIT
    requires LastCut(cuts) <= cut <= |payload| && cut <= length
    requires Rising(cuts + [cut], |payload|) && Rising(cuts + [cut], length)
    requires forall i :: 0 <= i < |cuts| ==> |Pieces(payload, cuts)[i]| < UINT16_LIMIT
    ensures SplitFrom(prefix, length, payload, cuts + [cut])
      == Records(prefix, Pieces(payload, cuts))
        + Parted(prefix, length - LastCut(cuts), payload[LastCut(cuts)..], cut - LastCut(cuts))
  {
    var from := LastCut(cuts);
    assert LastCut(cuts + [cut]) == cut;
    SplitOk(payload, cuts + [cut], length);
    PieceNext(prefix, payload, cuts, cut);
    PartedRest(prefix, length, payload, from, cut);
    Rejoin(Records(prefix, Pieces(payload, cuts + [cut])), Record(prefix, length - cut, payload[cut..]),
           Records(prefix, Pieces(payload, cuts)), Record(prefix, cut - from, payload[from..cut]),
           Parted(prefix, length - from, payload[from..], cut - from));
  }

  /** What part_tls makes of the last record of the text that has been cut so far. */
  lemma {:induction false} SplitNext(text: bytes, n: nat, cuts: seq<nat>, at: nat, cut: nat, t: bytes)
    requires Within(text, n, cuts) && Within(text, n, cuts + [cut])
    requires LastCut(cuts) <= cut <= n - HEADER && n + HEADER * (|cuts| + 1) <= |text|
    requires at == LastCut(cuts) + HEADER * |cuts| && t == SplitText(text, n, cuts)
    ensures |t| == |text| && at + HEADER <= n + HEADER * |cuts|
    ensures FromBe16(t[at + 3], t[at + 4]) >= cut - LastCut(cuts) && |t[at + HEADER..n + HEADER * |cuts|]| >= cut - LastCut(cuts)
    ensures SplitText(text, n, cuts + [cut]) ==
      t[..at] + Parted(t[at..at + 3], FromBe16(t[at + 3], t[at + 4]), t[at + HEADER..n + HEADER * |cuts|], cut - LastCut(cuts))
      + t[n + HEADER * |cuts| + 5..]
  {
    var n' := n + HEADER * |cuts|;
    SplitParts(text, n, cuts, at);
    assert (cuts + [cut])[|cuts|] == cut;
    SplitFromNext(text[..3], FromBe16(text[3], text[4]), text[HEADER..n], cuts, cut);
    SplitIs(text, n, cuts + [cut]);
    assert t[n' + 5..] == text[n' + 5..] by {
      assert t[n'..][5..] == text[n'..][5..];
    }
  }

  /** Can the i-th option be met, with the cuts before it done? */
  predicate Fits(o: int, i: nat, from: nat, n: nat, bfsize: nat) {
    o >= from && bfsize - (n + 5 * i) >= 5 && o + 5 <= n
  }

  /** Such a call says that it has cut exactly if the option can be met, whether it has cut or not. */
  lemma {:induction false} CutSaid(t: bytes, bfsize: nat, n': nat, lp: nat, pos: int, res: int, t': bytes,
                                   n: nat, cuts: seq<nat>, cut: nat)
    requires n' <= bfsize <= |t| && n' == n + HEADER * |cuts| && lp == LastCut(cuts) + HEADER * |cuts| && lp <= n'
    requires lp <= pos == cut + HEADER * |cuts| && CutGoes(t, lp, bfsize, n' - lp, pos - lp, res, t')
    ensures (res != 0) == Fits(cut, |cuts|, LastCut(cuts), n, bfsize)
    ensures res == 0 ==> t' == t
  {
  }

  /** One round of the loop: a cut of the last record, which starts at lp. */
  lemma {:induction false} CutOnce(t: bytes, bfsize: nat, n': nat, lp: nat, pos: int, res: int, t': bytes,
                                   text: bytes, n: nat, cuts: seq<nat>, cut: nat)
    requires n' <= bfsize <= |t| == |text| && n' == n + HEADER * |cuts| && lp == LastCut(cuts) + HEADER * |cuts|
    requires lp <= n' && lp <= pos == cut + HEADER * |cuts| && Made(t, text, n, cuts)
    requires CutGoes(t, lp, bfsize, n' - lp, pos - lp, res, t') && res != 0
    ensures if cut > FromBe16(text[3], text[4]) then t' == t else Made(t', text, n, cuts + [cut])
  {
    CutSaid(t, bfsize, n', lp, pos, res, t', n, cuts, cut);
    SplitParts(text, n, cuts, lp);
    if cut <= FromBe16(text[3], text[4]) {
      NextRising(cuts, cut, n - HEADER);
      NextRising(cuts, cut, FromBe16(text[3], text[4]));
      SplitNext(text, n, cuts, lp, cut, t);
    }
  }

  /** The cuts made so far, and what the options from the i-th on still ask for, are all there are; wrapped like Over. */
  ghost predicate Ahead(all: seq<nat>, cuts: seq<nat>, parts: seq<Part>, i: nat, n: nat, host: int, bfsize: nat, w: nat := 3)
    requires i <= |parts|
  {
    if w == 0 then all == cuts + Cuts(parts, i, LastCut(cuts), n, host, bfsize)
    else Ahead(all, cuts, parts, i, n, host, bfsize, w - 1)
  }

  lemma {:induction false} AheadIs(all: seq<nat>, cuts: seq<nat>, parts: seq<Part>, i: nat, n: nat, host: int, bfsize: nat,
                                   w: nat := 3)
    requires i <= |parts|
    ensures Ahead(all, cuts, parts, i, n, host, bfsize, w) <==> Ahead(all, cuts, parts, i, n, host, bfsize, 0)
  {
    if w > 0 { AheadIs(all, cuts, parts, i, n, host, bfsize, w - 1); }
  }

  lemma {:induction false} CutsNext(all: seq<nat>, cuts: seq<nat>, parts: seq<Part>, i: nat, n: nat, host: int, bfsize: nat)
    requires i < |parts| && Ahead(all, cuts, parts, i, n, host, bfsize)
    ensures var o := Offset(parts[i], i, n, host);
      if Fits(o, i, LastCut(cuts), n, bfsize) then Ahead(all, cuts + [o as nat], parts, i + 1, n, host, bfsize) else all == cuts
  {
    AheadIs(all, cuts, parts, i, n, host, bfsize);
    var o := Offset(parts[i], i, n, host);
    if Fits(o, i, LastCut(cuts), n, bfsize) {
      AheadIs(all, cuts + [o as nat], parts, i + 1, n, host, bfsize);
      assert cuts + ([o as nat] + Cuts(parts, i + 1, o, n, host, bfsize)) == (cuts + [o as nat]) + Cuts(parts, i + 1, o, n, host, bfsize);
    }
  }

  lemma {:induction false} CutsDone(all: seq<nat>, cuts: seq<nat>, parts: seq<Part>, n: nat, host: int, bfsize: nat)
    ensures Ahead(all, cuts, parts, |parts|, n, host, bfsize) ==> all == cuts
    ensures Ahead(Cuts(parts, 0, 0, n, host, bfsize), [], parts, 0, n, host, bfsize)
  {
    AheadIs(all, cuts, parts, |parts|, n, host, bfsize);
    AheadIs(Cuts(parts, 0, 0, n, host, bfsize), [], parts, 0, n, host, bfsize);
  }

  /** Do all cuts lie in a record of this size? */
  predicate AllIn(cuts: seq<nat>, size: nat) {
    forall i :: 0 <= i < |cuts| ==> cuts[i] <= size
  }

  /** The buffer is text with these cuts made. */
  ghost predicate Made(now: bytes, text: bytes, n: nat, cuts: seq<nat>) {
    Within(text, n, cuts) && n + HEADER * |cuts| <= |text| && now == SplitText(text, n, cuts)
  }

  /**
   All cuts are made exactly if they lie in the record, and if only the last does not, then all but that one are;
   wrapped like Over.
   */
  ghost predicate Counted(now: bytes, text: bytes, n: nat, cuts: seq<nat>, w: nat := 3)
    requires Front(text, n)
  {
    if w == 0 then
      var size := FromBe16(text[3], text[4]);
      && (AllIn(cuts, size) <==> Made(now, text, n, cuts))
      && (cuts != [] && LastCut(cuts) > size && AllIn(cuts[..|cuts| - 1], size) ==>
            Made(now, text, n, cuts[..|cuts| - 1]))
    else Counted(now, text, n, cuts, w - 1)
  }

  lemma {:induction false} CountedIs(now: bytes, text: bytes, n: nat, cuts: seq<nat>, w: nat := 3)
    requires Front(text, n)
    ensures Counted(now, text, n, cuts, w) <==> Counted(now, text, n, cuts, 0)
  {
    if w > 0 { CountedIs(now, text, n, cuts, w - 1); }
  }

  /** With no bytes behind the record, every cut lies in it, so that every cut that is counted is made. */
  lemma {:induction false} NoneBehind(text: bytes, parts: seq<Part>, n: nat, host: int, bfsize: nat)
    requires Front(text, n) && n <= FromBe16(text[3], text[4]) + HEADER && n <= bfsize
    ensures AllIn(Cuts(parts, 0, 0, n, host, bfsize), FromBe16(text[3], text[4]))
  {
    CutsRise(parts, 0, 0, n, host, bfsize);
  }

  /** With an empty record and more behind it, a cut after the first byte is counted and cannot have been made. */
  lemma {:induction false} CutBehind(text: bytes, n: nat, bfsize: nat, now: bytes)
    requires Front(text, n) && n > HEADER && n + HEADER <= bfsize && FromBe16(text[3], text[4]) == 0
    ensures Cuts([Part(false, 1)], 0, 0, n, 0, bfsize) == [1] && !Made(now, text, n, [1])
  {
    assert Cuts([Part(false, 1)], 1, 1, n, 0, bfsize) == [];
    var cuts: seq<nat> := [1];
    assert cuts[0] > FromBe16(text[3], text[4]);
  }

  /**
   The loop over the record options in desync, on a buffer that starts with a record: it goes up to the first option
   that cannot be met and counts a header for every option before it. The record has been cut wherever these options
   say exactly if all their cuts lie in it: for a cut behind the record part_tls reports success and does nothing.
   */
  method SplitLoop(buffer: array<byte>, bfsize: nat, n: nat, parts: seq<Part>, host: int) returns (n': nat)
    requires n <= bfsize <= buffer.Length && Front(buffer[..], n)
    modifies buffer
    ensures n' == n + HEADER * |Cuts(parts, 0, 0, n, host, bfsize)| <= bfsize
    ensures Counted(buffer[..], old(buffer[..]), n, Cuts(parts, 0, 0, n, host, bfsize))
  {
    ghost var text, cuts: seq<nat>, all := buffer[..], [], Cuts(parts, 0, 0, n, host, bfsize);
    StartText(text, n);
    CutsDone(all, cuts, parts, n, host, bfsize);
    n' := n;
    var lp := 0;
    for i := 0 to |parts|
      invariant |cuts| == i && Ahead(all, cuts, parts, i, n, host, bfsize)
      invariant n' == n + HEADER * i <= bfsize && lp == LastCut(cuts) + HEADER * i <= n'
      invariant Counted(buffer[..], text, n, cuts)
    {
      var part := parts[i];
      var pos := part.pos + i * 5;
      if part.sni {
        pos := pos + (host - 5);
      } else if pos < 0 {
        pos := pos + n';
      }
      CutsNext(all, cuts, parts, i, n, host, bfsize);
      if pos < lp {
        return;
      }
      ghost var cut: nat := pos - HEADER * i;
      var res := Round(buffer, bfsize, n', lp, pos, text, n, cuts, cut);
      if res == 0 {
        return;
      }
      cuts := cuts + [cut];
      n' := n' + 5;
      lp := pos + 5;
    }
    CutsDone(all, cuts, parts, n, host, bfsize);
  }

  /** One call of that loop. */
  method Round(buffer: array<byte>, bfsize: nat, n': nat, lp: nat, pos: int,
               ghost text: bytes, ghost n: nat, ghost cuts: seq<nat>, ghost cut: nat)
    returns (res: int)
    requires n' <= bfsize <= buffer.Length == |text| && Front(text, n) && n' == n + HEADER * |cuts|
    requires lp == LastCut(cuts) + HEADER * |cuts| && lp <= n' && lp <= pos == cut + HEADER * |cuts|
    requires Counted(buffer[..], text, n, cuts)
    modifies buffer
    ensures (res != 0) == Fits(cut, |cuts|, LastCut(cuts), n, bfsize)
    ensures Counted(buffer[..], text, n, if res == 0 then cuts else cuts + [cut])
  {
    ghost var t := buffer[..];
    res := PartTls(buffer, lp, bfsize, n' - lp, pos - lp);
    CutSaid(t, bfsize, n', lp, pos, res, buffer[..], n, cuts, cut);
    if res != 0 {
      CountedNext(t, bfsize, n', lp, pos, res, buffer[..], text, n, cuts, cut);
    }
  }

  lemma {:induction false} CountedNext(t: bytes, bfsize: nat, n': nat, lp: nat, pos: int, res: int, t': bytes,
                                       text: bytes, n: nat, cuts: seq<nat>, cut: nat)
    requires n' <= bfsize <= |t| == |text| && n' == n + HEADER * |cuts| && lp == LastCut(cuts) + HEADER * |cuts|
    requires lp <= n' && lp <= pos == cut + HEADER * |cuts| && Front(text, n) && Counted(t, text, n, cuts)
    requires CutGoes(t, lp, bfsize, n' - lp, pos - lp, res, t') && res != 0
    ensures Counted(t', text, n, cuts + [cut])
  {
    CountedIs(t, text, n, cuts);
    if AllIn(cuts, FromBe16(text[3], text[4])) {
      CutOnce(t, bfsize, n', lp, pos, res, t', text, n, cuts, cut);
    }
    CountsOn(t, t', text, n, cuts, cut);
  }

  lemma {:induction false} CountsOn(t: bytes, t': bytes, text: bytes, n: nat, cuts: seq<nat>, cut: nat)
    requires Front(text, n) && Counted(t, text, n, cuts)
    requires AllIn(cuts, FromBe16(text[3], text[4])) ==>
      if cut > FromBe16(text[3], text[4]) then t' == t else Made(t', text, n, cuts + [cut])
    ensures Counted(t', text, n, cuts + [cut])
  {
    CountedIs(t, text, n, cuts);
    CountedIs(t', text, n, cuts + [cut]);
    assert (cuts + [cut])[..|cuts|] == cuts && (cuts + [cut])[|cuts|] == cut;
    assert forall i :: 0 <= i < |cuts| ==> (cuts + [cut])[i] == cuts[i];
  }

  lemma {:induction false} StartText(text: bytes, n: nat)
    requires Front(text, n)
    ensures Counted(text, text, n, [])
  {
    SplitIs(text, n, []);
    assert Within(text, n, []);
    assert Record(text[..3], FromBe16(text[3], text[4]), text[HEADER..n]) == text[..n];
    CountedIs(text, text, n, []);
  }

  lemma {:induction false} NextRising(cuts: seq<nat>, cut: nat, size: nat)
    requires Rising(cuts, size) && LastCut(cuts) <= cut <= size
    ensures Rising(cuts + [cut], size)
  {
  }
}
