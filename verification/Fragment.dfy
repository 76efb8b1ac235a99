/**
 FragmentProto: frames of any size are cut into chunks that fit a carrier packet
 (`protocol/fragmentproto.h`, `FragmentProtoAssembler.c`, `FragmentProtoDisassembler.c`).
 This module has the wire format, and the assembler as a function on values.
 */
module Fragment {
  import opened Bytes
  import opened Common

  const HEADER: nat := 7
  const FPA_MAX_TIME: nat := 0xFFFF_FFFF
  const UINT16_LIMIT: nat := 0x1_0000

  /** One chunk as it is on the wire; its length field is the length of data. */
  datatype Chunk = Chunk(id: nat, start: nat, last: bool, data: bytes) {
    ghost predicate Fits() {
      id < UINT16_LIMIT && start < UINT16_LIMIT && |data| < UINT16_LIMIT
    }
  }

  function Le16(x: nat): (r: bytes)
    requires x < UINT16_LIMIT
    ensures |r| == 2
  {
    [(x % 256) as byte, (x / 256) as byte]
  }

  function FromLe16(lo: byte, hi: byte): (r: nat)
    ensures r < UINT16_LIMIT
  {
    lo as nat + 256 * hi as nat
  }

  function Encode(c: Chunk): (r: bytes)
    requires c.Fits()
    ensures |r| == HEADER + |c.data|
  {
    Le16(c.id) + Le16(c.start) + Le16(|c.data|) + [if c.last then 1 else 0] + c.data
  }

  /** The chunk at the front of a packet, or None when header or data are cut off or is_last is neither 0 nor 1. */
  function Parse(s: bytes): (r: Option<Chunk>)
    ensures r.Some? ==> r.value.Fits() && HEADER + |r.value.data| <= |s|
  {
    if |s| < HEADER then None
    else
      var len := FromLe16(s[4], s[5]);
      if s[6] > 1 || |s| - HEADER < len then None
      else Some(Chunk(FromLe16(s[0], s[1]), FromLe16(s[2], s[3]), s[6] == 1, s[HEADER..HEADER + len]))
  }

  lemma {:induction false} Le16RoundTrip(x: nat)
    requires x < UINT16_LIMIT
    ensures FromLe16(Le16(x)[0], Le16(x)[1]) == x
  {
  }

  /** A written chunk is read back, whatever follows it. */
  lemma {:induction false} ParseEncoded(c: Chunk, rest: bytes)
    requires c.Fits()
    ensures Parse(Encode(c) + rest) == Some(c)
    ensures (Encode(c) + rest)[HEADER + |c.data|..] == rest
  {
    var s := Encode(c) + rest;
    Le16RoundTrip(c.id);
    Le16RoundTrip(c.start);
    Le16RoundTrip(|c.data|);
    assert s[0] == Le16(c.id)[0] && s[1] == Le16(c.id)[1];
    assert s[2] == Le16(c.start)[0] && s[3] == Le16(c.start)[1];
    assert s[4] == Le16(|c.data|)[0] && s[5] == Le16(|c.data|)[1];
    assert s[HEADER..HEADER + |c.data|] == c.data;
  }

  /** The bytes of a chunk: id, start and length in two bytes each, the low one first, then whether it is the last. */
  lemma {:induction false} ChunkBytes(c: Chunk)
    requires c.Fits()
    ensures var s := Encode(c);
      && |s| == 7 + |c.data| && s[7..] == c.data && s[6] == (if c.last then 1 else 0)
      && s[0] as nat == c.id % 256 && s[1] as nat == c.id / 256
      && s[2] as nat == c.start % 256 && s[3] as nat == c.start / 256
      && s[4] as nat == |c.data| % 256 && s[5] as nat == |c.data| / 256
  {
  }

  function EncodeAll(cs: seq<Chunk>): bytes
    requires forall c <- cs :: c.Fits()
  {
    if cs == [] then [] else Encode(cs[0]) + EncodeAll(cs[1..])
  }

  /** The chunks a packet holds: everything before the first one that does not parse. */
  function ParseAll(s: bytes): (r: seq<Chunk>)
    decreases |s|
  {
    var c := Parse(s);
    if c.None? then [] else [c.value] + ParseAll(s[HEADER + |c.value.data|..])
  }

  lemma {:induction false} ParseAllEncoded(cs: seq<Chunk>)
    requires forall c <- cs :: c.Fits()
    ensures ParseAll(EncodeAll(cs)) == cs
  {
    if cs != [] {
      ParseEncoded(cs[0], EncodeAll(cs[1..]));
      ParseAllEncoded(cs[1..]);
    }
  }

  // ---------- the assembler's state ----------

  /** A chunk the assembler has accepted into a frame. */
  datatype Piece = Piece(start: nat, data: bytes) {
    function End(): nat { start + |data| }

    predicate Holds(k: nat) { start <= k < End() }
  }

  /** A used frame entry. length is -1 as long as the last chunk is missing; far bounds the data until then. */
  datatype Frame = Frame(id: nat, time: nat, pieces: seq<Piece>, length: int, far: nat)

  datatype Config = Config(outputMtu: nat, numChunks: nat, numFrames: nat) {
    ghost predicate Ok() {
      numFrames > 0 && numFrames < FPA_MAX_TIME && numChunks > 0
    }
  }

  /** The used frames, oldest first, and the packet clock. */
  datatype State = State(time: nat, used: seq<Frame>)

  predicate ChunksOverlap(s1: nat, l1: nat, s2: nat, l2: nat) {
    s1 + l1 > s2 && s2 + l2 > s1
  }

  predicate Clash(p: Piece, c: Piece) {
    ChunksOverlap(p.start, |p.data|, c.start, |c.data|)
  }

  function Total(ps: seq<Piece>): nat {
    if ps == [] then 0 else Total(ps[..|ps| - 1]) + |ps[|ps| - 1].data|
  }

  predicate TimedOut(cfg: Config, now: nat, f: Frame) {
    now - f.time > cfg.numFrames
  }

  /** The position of the used frame with this id, or the number of used frames if there is none. */
  function Lookup(used: seq<Frame>, id: nat): (j: nat)
    ensures j <= |used|
    ensures j < |used| ==> used[j].id == id
    ensures forall i :: 0 <= i < j ==> used[i].id != id
  {
    if used == [] || used[0].id == id then 0 else 1 + Lookup(used[1..], id)
  }

  function FreeFrame(s: State, j: nat): State
    requires j < |s.used|
  {
    s.(used := Without(s.used, j))
  }

  /** A fresh frame at the end of the used list; the oldest one makes room if all entries are used. */
  function Allocate(cfg: Config, s: State, id: nat): (r: State)
    requires cfg.Ok() && |s.used| <= cfg.numFrames
    ensures |r.used| > 0 && |r.used| <= cfg.numFrames
  {
    var s1 := if |s.used| == cfg.numFrames then FreeFrame(s, 0) else s;
    s1.(used := s1.used + [Frame(id, s.time, [], -1, 0)])
  }

  /** The frame a chunk with this id goes to, allocated if need be: the new state and the frame's position. */
  function FrameFor(cfg: Config, s: State, id: nat): (r: (State, nat))
    requires cfg.Ok() && |s.used| <= cfg.numFrames
    ensures r.1 < |r.0.used|
  {
    var j := Lookup(s.used, id);
    if j == |s.used| then
      var s1 := Allocate(cfg, s, id);
      (s1, |s1.used| - 1)
    else if TimedOut(cfg, s.time, s.used[j]) then
      var s1 := Allocate(cfg, FreeFrame(s, j), id);
      (s1, |s1.used| - 1)
    else (s, j)
  }

  predicate Acceptable(f: Frame, c: Piece, last: bool) {
    && (forall i :: 0 <= i < |f.pieces| ==> !Clash(f.pieces[i], c))
    && (if last then f.length < 0 && f.far <= c.End() else f.length >= 0 ==> c.End() <= f.length)
  }

  function Added(f: Frame, c: Piece, last: bool, now: nat): Frame {
    Frame(f.id, now, f.pieces + [c],
          if last then c.End() else f.length,
          if !last && f.length < 0 && f.far < c.End() then c.End() else f.far)
  }

  predicate Complete(f: Frame) {
    f.length >= 0 && Total(f.pieces) >= f.length
  }

  function ByteAt(ps: seq<Piece>, k: nat): byte {
    if ps == [] then 0
    else if ps[|ps| - 1].Holds(k) then ps[|ps| - 1].data[k - ps[|ps| - 1].start]
    else ByteAt(ps[..|ps| - 1], k)
  }

  /** The overlay of the pieces of a frame. */
  function Assembled(ps: seq<Piece>, length: nat): (r: bytes)
    ensures |r| == length
  {
    seq(length, k requires 0 <= k < length => ByteAt(ps, k))
  }

  /** What process_chunk does once the frame is known. */
  function Place(cfg: Config, s: State, j: nat, c: Piece, last: bool): (State, Option<bytes>)
    requires j < |s.used|
  {
    var f := s.used[j];
    if !Acceptable(f, c, last) then (FreeFrame(s, j), None)
    else
      var f' := Added(f, c, last, s.time);
      if Complete(f') then (FreeFrame(s, j), Some(Assembled(f'.pieces, f'.length)))
      else if |f'.pieces| == cfg.numChunks then (FreeFrame(s, j), None)
      else (s.(used := s.used[j := f']), None)
  }

  predicate InBounds(cfg: Config, c: Chunk) {
    c.start <= cfg.outputMtu && |c.data| <= cfg.outputMtu - c.start
  }

  /** process_chunk: the new state, and the frame it sends, if any */
  function ProcessChunk(cfg: Config, s: State, c: Chunk): (State, Option<bytes>)
    requires cfg.Ok() && |s.used| <= cfg.numFrames
  {
    if !InBounds(cfg, c) then (s, None)
    else
      var r := FrameFor(cfg, s, c.id);
      Place(cfg, r.0, r.1, Piece(c.start, c.data), c.last)
  }

  // ---------- the invariant ----------

  ghost predicate Disjoint(ps: seq<Piece>) {
    forall i, j :: 0 <= i < j < |ps| ==> !Clash(ps[i], ps[j])
  }

  ghost predicate Inside(ps: seq<Piece>, n: int) {
    forall i :: 0 <= i < |ps| ==> ps[i].End() <= n
  }

  /** Some piece ends at n, or n is 0. */
  ghost predicate Touched(ps: seq<Piece>, n: nat) {
    n == 0 || exists i :: 0 <= i < |ps| && ps[i].End() == n
  }

  /** Pieces pairwise disjoint and inside the frame, and still incomplete. */
  ghost predicate GoodFrame(cfg: Config, f: Frame) {
    && |f.pieces| < cfg.numChunks
    && Disjoint(f.pieces)
    && (if f.length < 0 then f.length == -1 && f.far <= cfg.outputMtu && Inside(f.pieces, f.far) && Touched(f.pieces, f.far)
        else f.length <= cfg.outputMtu && Inside(f.pieces, f.length) && Total(f.pieces) < f.length)
  }

  ghost predicate UniqueIds(used: seq<Frame>) {
    forall i, j :: 0 <= i < j < |used| ==> used[i].id != used[j].id
  }

  ghost predicate Inv(cfg: Config, s: State) {
    && |s.used| <= cfg.numFrames
    && UniqueIds(s.used)
    && (forall f <- s.used :: GoodFrame(cfg, f) && f.time <= s.time)
  }

  // ---------- counting bytes is enough ----------

  predicate Between(a: int, k: int, b: int) { a <= k < b }

  ghost function Range(a: nat, b: nat): set<nat> {
    set k: nat | k < b && Between(a, k, b)
  }

  ghost function Cells(p: Piece): set<nat> {
    Range(p.start, p.End())
  }

  ghost function Covered(ps: seq<Piece>): set<nat> {
    if ps == [] then {} else Covered(ps[..|ps| - 1]) + Cells(ps[|ps| - 1])
  }

  lemma {:induction false} CellsCount(a: nat, b: nat)
    requires a <= b
    ensures |Range(a, b)| == b - a
    decreases b
  {
    if a < b {
      CellsCount(a, b - 1);
      assert Range(a, b) == Range(a, b - 1) + {b - 1};
    } else {
      assert Range(a, b) == {};
    }
  }

  lemma {:induction false} InCovered(ps: seq<Piece>, k: nat)
    ensures k in Covered(ps) ==> exists i :: 0 <= i < |ps| && ps[i].Holds(k)
    ensures k !in Covered(ps) ==> forall i :: 0 <= i < |ps| ==> !ps[i].Holds(k)
  {
    if ps != [] {
      var init, p := ps[..|ps| - 1], ps[|ps| - 1];
      InCovered(init, k);
      if k in Covered(init) {
        var i :| 0 <= i < |init| && init[i].Holds(k);
        assert ps[i].Holds(k);
      } else if k in Cells(p) {
        assert ps[|ps| - 1].Holds(k);
      } else {
        forall i | 0 <= i < |ps| ensures !ps[i].Holds(k) {
          assert i < |init| ==> init[i] == ps[i];
        }
      }
    }
  }

  /** Disjoint pieces cover as many positions as they have bytes. */
  lemma {:induction false} CoveredCount(ps: seq<Piece>)
    requires Disjoint(ps)
    ensures |Covered(ps)| == Total(ps)
  {
    if ps != [] {
      var init, p := ps[..|ps| - 1], ps[|ps| - 1];
      CoveredCount(init);
      CellsCount(p.start, p.End());
      forall k | k in Covered(init) ensures k !in Cells(p) {
        InCovered(init, k);
        var i :| 0 <= i < |init| && init[i].Holds(k);
        assert !Clash(ps[i], ps[|ps| - 1]);
      }
      assert Covered(init) !! Cells(p);
    }
  }

  lemma {:induction false} SubsetCount<T>(a: set<T>, b: set<T>)
    requires a <= b
    ensures |a| <= |b|
    ensures |a| == |b| ==> a == b
  {
    assert b == a + (b - a);
  }

  /** The sum of the chunk lengths never exceeds the frame length, and at equality every position is covered. */
  lemma {:induction false} SumBounded(ps: seq<Piece>, length: nat)
    requires Disjoint(ps) && Inside(ps, length)
    ensures Total(ps) <= length
    ensures Total(ps) == length ==> forall k :: 0 <= k < length ==> k in Covered(ps)
  {
    var all := Range(0, length);
    CellsCount(0, length);
    CoveredCount(ps);
    forall k | k in Covered(ps) ensures k in all {
      InCovered(ps, k);
    }
    SubsetCount(Covered(ps), all);
  }

  /** i is the only piece of ps that holds position k. */
  ghost predicate OnlyHolder(ps: seq<Piece>, i: nat, k: nat) {
    i < |ps| && ps[i].Holds(k) && forall j :: 0 <= j < |ps| && j != i ==> !ps[j].Holds(k)
  }

  ghost predicate HeldOnce(ps: seq<Piece>, k: nat) {
    exists i: nat :: OnlyHolder(ps, i, k)
  }

  /** When the lengths add up, every position of the frame was written by exactly one chunk. */
  lemma {:induction false} ExactCover(ps: seq<Piece>, length: nat, k: nat)
    requires Disjoint(ps) && Inside(ps, length) && Total(ps) == length && k < length
    ensures HeldOnce(ps, k)
  {
    SumBounded(ps, length);
    InCovered(ps, k);
    var i :| 0 <= i < |ps| && ps[i].Holds(k);
    forall j | 0 <= j < |ps| && j != i ensures !ps[j].Holds(k) {
      if i < j { assert !Clash(ps[i], ps[j]); } else { assert !Clash(ps[j], ps[i]); }
    }
    assert OnlyHolder(ps, i, k);
  }

  lemma {:induction false} ByteOfHolder(ps: seq<Piece>, i: nat, k: nat)
    requires OnlyHolder(ps, i, k)
    ensures ByteAt(ps, k) == ps[i].data[k - ps[i].start]
  {
    if i < |ps| - 1 {
      var init := ps[..|ps| - 1];
      assert !ps[|ps| - 1].Holds(k);
      assert OnlyHolder(init, i, k);
      ByteOfHolder(init, i, k);
    }
  }

  /** Any bytes that agree with every piece on its range are the assembled frame. */
  lemma {:induction false} AssembledUnique(ps: seq<Piece>, length: nat, buffer: bytes)
    requires Disjoint(ps) && Inside(ps, length) && Total(ps) == length == |buffer|
    requires forall i :: 0 <= i < |ps| ==> buffer[ps[i].start..ps[i].End()] == ps[i].data
    ensures buffer == Assembled(ps, length)
  {
    forall k | 0 <= k < length ensures buffer[k] == ByteAt(ps, k) {
      ExactCover(ps, length, k);
      var i: nat :| OnlyHolder(ps, i, k);
      ByteOfHolder(ps, i, k);
      assert buffer[ps[i].start..ps[i].End()][k - ps[i].start] == ps[i].data[k - ps[i].start];
    }
  }

  // ---------- every call keeps the invariant ----------

  lemma {:induction false} LookupUnique(used: seq<Frame>, j: nat)
    requires UniqueIds(used) && j < |used|
    ensures Lookup(used, used[j].id) == j
  {
    var i := Lookup(used, used[j].id);
    assert i <= j;
  }

  lemma {:induction false} FreeFrameKeeps(cfg: Config, s: State, j: nat)
    requires Inv(cfg, s) && j < |s.used|
    ensures Inv(cfg, FreeFrame(s, j))
    ensures forall f :: f in FreeFrame(s, j).used ==> f in s.used && f.id != s.used[j].id
    ensures forall f :: f in s.used && f != s.used[j] ==> f in FreeFrame(s, j).used
  {
    var r := FreeFrame(s, j).used;
    assert forall i :: 0 <= i < |r| ==> r[i] == s.used[if i < j then i else i + 1];
    forall f | f in s.used && f != s.used[j] ensures f in r {
      var i :| 0 <= i < |s.used| && s.used[i] == f;
      assert f == r[if i < j then i else i - 1];
    }
  }

  lemma {:induction false} AllocateKeeps(cfg: Config, s: State, id: nat)
    requires cfg.Ok() && Inv(cfg, s) && forall f <- s.used :: f.id != id
    ensures Inv(cfg, Allocate(cfg, s, id))
  {
    if |s.used| == cfg.numFrames {
      FreeFrameKeeps(cfg, s, 0);
    }
  }

  lemma {:induction false} FrameForKeeps(cfg: Config, s: State, id: nat)
    requires cfg.Ok() && Inv(cfg, s)
    ensures Inv(cfg, FrameFor(cfg, s, id).0)
    ensures FrameFor(cfg, s, id).0.used[FrameFor(cfg, s, id).1].id == id
    ensures FrameFor(cfg, s, id).0.time == s.time
  {
    var j := Lookup(s.used, id);
    if j == |s.used| {
      AllocateKeeps(cfg, s, id);
    } else if TimedOut(cfg, s.time, s.used[j]) {
      FreeFrameKeeps(cfg, s, j);
      AllocateKeeps(cfg, FreeFrame(s, j), id);
    }
  }

  lemma {:induction false} TouchedMore(ps: seq<Piece>, far: nat, c: Piece)
    requires Touched(ps, far)
    ensures Touched(ps + [c], far) && Touched(ps + [c], c.End())
  {
    var more := ps + [c];
    assert more[|ps|].End() == c.End();
    if far > 0 {
      var i :| 0 <= i < |ps| && ps[i].End() == far;
      assert more[i].End() == far;
    }
  }

  /** An accepted chunk keeps its frame disjoint and in bounds; sum never exceeds a known length. */
  lemma {:induction false} AddedGood(cfg: Config, f: Frame, c: Piece, last: bool, now: nat)
    requires GoodFrame(cfg, f) && Acceptable(f, c, last) && c.End() <= cfg.outputMtu
    ensures var f' := Added(f, c, last, now);
      && Disjoint(f'.pieces)
      && (if f'.length < 0
          then f'.length == -1 && f'.far <= cfg.outputMtu && Inside(f'.pieces, f'.far) && Touched(f'.pieces, f'.far)
          else f'.length <= cfg.outputMtu && Inside(f'.pieces, f'.length) && Total(f'.pieces) <= f'.length)
  {
    var f' := Added(f, c, last, now);
    assert forall i :: 0 <= i < |f.pieces| ==> f'.pieces[i] == f.pieces[i];
    if f.length < 0 {
      TouchedMore(f.pieces, f.far, c);
    }
    if f'.length >= 0 {
      SumBounded(f'.pieces, f'.length);
    }
  }

  lemma {:induction false} PlaceKeeps(cfg: Config, s: State, j: nat, c: Piece, last: bool)
    requires Inv(cfg, s) && j < |s.used| && c.End() <= cfg.outputMtu
    ensures Inv(cfg, Place(cfg, s, j, c, last).0)
  {
    FreeFrameKeeps(cfg, s, j);
    var f := s.used[j];
    if Acceptable(f, c, last) {
      AddedGood(cfg, f, c, last, s.time);
      var f' := Added(f, c, last, s.time);
      if !Complete(f') && |f'.pieces| != cfg.numChunks {
        assert GoodFrame(cfg, f');
      }
    }
  }

  /** Every frame stays pairwise disjoint, in bounds and incomplete; ids stay unique. */
  lemma {:induction false} ProcessChunkKeeps(cfg: Config, s: State, c: Chunk)
    requires cfg.Ok() && Inv(cfg, s)
    ensures Inv(cfg, ProcessChunk(cfg, s, c).0)
    ensures ProcessChunk(cfg, s, c).0.time == s.time
  {
    if InBounds(cfg, c) {
      FrameForKeeps(cfg, s, c.id);
      var r := FrameFor(cfg, s, c.id);
      PlaceKeeps(cfg, r.0, r.1, Piece(c.start, c.data), c.last);
    }
  }

  /** The bytes d are the pieces ps laid side by side: each position comes from exactly one of them. */
  ghost predicate ExactlyMadeOf(d: bytes, ps: seq<Piece>) {
    && Total(ps) == |d|
    && (forall i :: 0 <= i < |ps| ==> ps[i].End() <= |d| && d[ps[i].start..ps[i].End()] == ps[i].data)
    && (forall k :: 0 <= k < |d| ==> HeldOnce(ps, k))
  }

  lemma {:induction false} AssembledMadeOf(ps: seq<Piece>, length: nat)
    requires Disjoint(ps) && Inside(ps, length) && Total(ps) == length
    ensures ExactlyMadeOf(Assembled(ps, length), ps)
  {
    var d := Assembled(ps, length);
    forall k | 0 <= k < length ensures HeldOnce(ps, k) {
      ExactCover(ps, length, k);
    }
    forall i | 0 <= i < |ps| ensures d[ps[i].start..ps[i].End()] == ps[i].data {
      forall k | ps[i].start <= k < ps[i].End() ensures d[k] == ps[i].data[k - ps[i].start] {
        ExactCover(ps, length, k);
        var j: nat :| OnlyHolder(ps, j, k);
        assert ps[i].Holds(k);
        ByteOfHolder(ps, j, k);
      }
    }
  }

  /** A frame that is sent consists exactly of the chunks accepted for it, the last of them the current one. */
  lemma {:induction false} DeliveredExactly(cfg: Config, s: State, c: Chunk)
    requires cfg.Ok() && Inv(cfg, s) && ProcessChunk(cfg, s, c).1.Some?
    ensures InBounds(cfg, c)
    ensures var r := FrameFor(cfg, s, c.id);
      ExactlyMadeOf(ProcessChunk(cfg, s, c).1.value, r.0.used[r.1].pieces + [Piece(c.start, c.data)])
  {
    FrameForKeeps(cfg, s, c.id);
    var r := FrameFor(cfg, s, c.id);
    var f, p := r.0.used[r.1], Piece(c.start, c.data);
    AddedGood(cfg, f, p, c.last, s.time);
    var f' := Added(f, p, c.last, s.time);
    AssembledMadeOf(f'.pieces, f'.length);
  }

  // ---------- what a chunk does ----------

  /** The frame a chunk joins: the one with its id, at position j, unless that is too old; pieces and length so far. */
  ghost predicate Joins(cfg: Config, s: State, id: nat, j: nat, ps: seq<Piece>, length: int) {
    && j <= |s.used| && (forall i :: 0 <= i < |s.used| ==> (s.used[i].id == id <==> i == j))
    && if j < |s.used| && s.time - s.used[j].time <= cfg.numFrames
       then ps == s.used[j].pieces && length == s.used[j].length
       else ps == [] && length == -1
  }

  /** The other frames: the oldest makes room if the chunk starts a frame in a full table. */
  ghost function Others(cfg: Config, s: State, j: nat): seq<Frame>
    requires j <= |s.used| <= cfg.numFrames && cfg.numFrames > 0
  {
    if j < |s.used| then s.used[..j] + s.used[j + 1..] else if |s.used| == cfg.numFrames then s.used[1..] else s.used
  }

  /** Where the frame of the chunk is afterwards, if it is kept. */
  ghost function Slot(cfg: Config, s: State, j: nat): nat
    requires j <= |s.used| <= cfg.numFrames && cfg.numFrames > 0
  {
    if j < |s.used| && s.time - s.used[j].time <= cfg.numFrames then j else |Others(cfg, s, j)|
  }

  /** The chunk overlaps nothing, and agrees with where the frame ends, or with how far it reaches. */
  ghost predicate Agrees(c: Chunk, ps: seq<Piece>, length: int) {
    var end := c.start + |c.data|;
    && (forall i :: 0 <= i < |ps| ==> ps[i].start + |ps[i].data| <= c.start || end <= ps[i].start)
    && (if c.last then length < 0 && forall i :: 0 <= i < |ps| ==> ps[i].start + |ps[i].data| <= end
        else length >= 0 ==> end <= length)
  }

  /** A frame with these pieces is all there: its last chunk has come, and the lengths add up. */
  ghost predicate AllThere(c: Chunk, ps: seq<Piece>, length: int) {
    var n := if c.last then c.start + |c.data| else length;
    n >= 0 && Total(ps) + |c.data| == n
  }

  lemma {:induction false} AgreesExact(cfg: Config, f: Frame, c: Chunk)
    requires GoodFrame(cfg, f)
    ensures Acceptable(f, Piece(c.start, c.data), c.last) <==> Agrees(c, f.pieces, f.length)
  {
    var p := Piece(c.start, c.data);
    forall i | 0 <= i < |f.pieces|
      ensures Clash(f.pieces[i], p) <==>
        !(f.pieces[i].start + |f.pieces[i].data| <= c.start || c.start + |c.data| <= f.pieces[i].start)
    {
    }
    if f.length < 0 && f.far > 0 {
      var i :| 0 <= i < |f.pieces| && f.pieces[i].End() == f.far;
    }
    assert f.length < 0 ==> forall i :: 0 <= i < |f.pieces| ==> f.pieces[i].End() <= f.far;
  }

  lemma {:induction false} FrameForExact(cfg: Config, s: State, id: nat, j: nat, ps: seq<Piece>, length: int)
    requires cfg.Ok() && Inv(cfg, s) && Joins(cfg, s, id, j, ps, length)
    ensures var (r, k) := FrameFor(cfg, s, id);
      && k == Slot(cfg, s, j) && k < |r.used| && r.used[..k] + r.used[k + 1..] == Others(cfg, s, j) && r.time == s.time
      && r.used[k].id == id && r.used[k].pieces == ps && r.used[k].length == length
  {
    assert Lookup(s.used, id) == j;
  }

  /**
   What one chunk does. Outside the largest frame it does nothing. Otherwise the other frames stay as they are, up to
   the one that makes room, and the chunk's own frame is dropped if the chunk does not agree with it, sent if it is
   all there, dropped if it has used all its slots, and else goes on with the chunk, as old as the clock.
   */
  lemma {:induction false} ChunkExact(cfg: Config, s: State, c: Chunk, j: nat, ps: seq<Piece>, length: int)
    requires cfg.Ok() && Inv(cfg, s) && Joins(cfg, s, c.id, j, ps, length)
    ensures var (s', out) := ProcessChunk(cfg, s, c);
      var all := ps + [Piece(c.start, c.data)];
      && s'.time == s.time
      && (c.start + |c.data| > cfg.outputMtu ==> s' == s && out == None)
      && (c.start + |c.data| <= cfg.outputMtu ==>
          if !Agrees(c, ps, length) then s'.used == Others(cfg, s, j) && out == None
          else if AllThere(c, ps, length) then
            s'.used == Others(cfg, s, j) && out.Some? && ExactlyMadeOf(out.value, all)
          else if |all| == cfg.numChunks then s'.used == Others(cfg, s, j) && out == None
          else
            var k := Slot(cfg, s, j);
            && out == None && k < |s'.used| && s'.used[..k] + s'.used[k + 1..] == Others(cfg, s, j)
            && Grown(s'.used[k], c, s.time, all, length))
  {
    if c.start + |c.data| <= cfg.outputMtu {
      FrameForExact(cfg, s, c.id, j, ps, length);
      FrameForKeeps(cfg, s, c.id);
      var (r, k) := FrameFor(cfg, s, c.id);
      assert r.used[k] in r.used;
      PlaceExact(cfg, s, r, k, c, Others(cfg, s, j), ps, length);
    }
  }

  /** The frame after it has taken the chunk. */
  ghost predicate Grown(f: Frame, c: Chunk, now: nat, all: seq<Piece>, length: int) {
    f.id == c.id && f.time == now && f.pieces == all && f.length == if c.last then c.start + |c.data| else length
  }

  lemma {:induction false} PlaceExact(cfg: Config, s: State, r: State, k: nat, c: Chunk, others: seq<Frame>,
                                      ps: seq<Piece>, length: int)
    requires cfg.Ok() && Inv(cfg, r) && k < |r.used| && r.used[..k] + r.used[k + 1..] == others && r.time == s.time
    requires r.used[k].id == c.id && r.used[k].pieces == ps && r.used[k].length == length
    requires c.start + |c.data| <= cfg.outputMtu
    ensures var (s', out) := Place(cfg, r, k, Piece(c.start, c.data), c.last);
      var all := ps + [Piece(c.start, c.data)];
      if !Agrees(c, ps, length) then s'.used == others && out == None
      else if AllThere(c, ps, length) then s'.used == others && out.Some? && ExactlyMadeOf(out.value, all)
      else if |all| == cfg.numChunks then s'.used == others && out == None
      else
        && out == None && k < |s'.used| == |r.used| && s'.used[..k] + s'.used[k + 1..] == others
        && Grown(s'.used[k], c, s.time, all, length)
  {
    var f, p := r.used[k], Piece(c.start, c.data);
    assert GoodFrame(cfg, f);
    AgreesExact(cfg, f, c);
    if Acceptable(f, p, c.last) {
      AddedGood(cfg, f, p, c.last, s.time);
      var f' := Added(f, p, c.last, s.time);
      assert f'.pieces[..|ps|] == ps;
      if Complete(f') {
        AssembledMadeOf(f'.pieces, f'.length);
      }
      assert r.used[k := f'][..k] == r.used[..k] && r.used[k := f'][k + 1..] == r.used[k + 1..];
    }
  }
}
