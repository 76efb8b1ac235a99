/** The chunks of one frame in any order, with other traffic in between. */
module FragmentShuffle {
  import opened Bytes
  import opened Common
  import opened Fragment
  import opened FragmentClock
  import opened FragmentStream

  /** cs are all the chunks that `frame` is cut into from pos on. */
  ghost predicate CutUp(cs: seq<Chunk>, id: nat, frame: bytes, pos: nat) {
    && cs != [] && Cut(cs[0], id, frame, pos)
    && (if cs[0].last then |cs| == 1 else CutUp(cs[1..], id, frame, pos + |cs[0].data|))
  }

  /** The pieces that a list of chunks leaves in a frame entry. */
  function PiecesOf(cs: seq<Chunk>): (r: seq<Piece>)
    ensures |r| == |cs|
    ensures forall i :: 0 <= i < |cs| ==> r[i] == Piece(cs[i].start, cs[i].data)
  {
    seq(|cs|, i requires 0 <= i < |cs| => Piece(cs[i].start, cs[i].data))
  }

  /** What the chunks of a frame are, one by one. */
  ghost predicate Part(c: Chunk, id: nat, frame: bytes, pos: nat) {
    && c.id == id && pos <= c.start && c.start + |c.data| <= |frame|
    && c.data == frame[c.start..c.start + |c.data|]
    && (c.last <==> c.start + |c.data| == |frame|)
    && (|c.data| > 0 || |frame| == 0)
  }

  lemma {:induction false} CutUpParts(cs: seq<Chunk>, id: nat, frame: bytes, pos: nat)
    requires CutUp(cs, id, frame, pos)
    ensures forall i :: 0 <= i < |cs| ==> Part(cs[i], id, frame, pos)
    ensures forall i, j :: 0 <= i < j < |cs| ==> cs[i].start + |cs[i].data| <= cs[j].start && |cs[i].data| > 0
    ensures |frame| == 0 ==> |cs| == 1
  {
    if !cs[0].last {
      var pos' := pos + |cs[0].data|;
      CutUpParts(cs[1..], id, frame, pos');
      forall i | 0 <= i < |cs| ensures Part(cs[i], id, frame, pos) {
        assert i > 0 ==> Part(cs[1..][i - 1], id, frame, pos');
      }
      forall i, j | 0 <= i < j < |cs| ensures cs[i].start + |cs[i].data| <= cs[j].start && |cs[i].data| > 0 {
        assert Part(cs[1..][j - 1], id, frame, pos');
        assert i > 0 ==> cs[1..][i - 1] == cs[i] && cs[1..][j - 1] == cs[j];
      }
    }
  }

  lemma {:induction false} CutUpCovers(cs: seq<Chunk>, id: nat, frame: bytes, pos: nat, k: nat)
    requires CutUp(cs, id, frame, pos) && pos <= k < |frame|
    ensures exists i :: 0 <= i < |cs| && cs[i].start <= k < cs[i].start + |cs[i].data|
  {
    if k < pos + |cs[0].data| {
      assert cs[0].start <= k < cs[0].start + |cs[0].data|;
    } else {
      CutUpCovers(cs[1..], id, frame, pos + |cs[0].data|, k);
      var i :| 0 <= i < |cs[1..]| && cs[1..][i].start <= k < cs[1..][i].start + |cs[1..][i].data|;
      assert cs[i + 1] == cs[1..][i];
    }
  }

  lemma {:induction false} PartsDistinct(cs: seq<Chunk>, id: nat, frame: bytes)
    requires CutUp(cs, id, frame, 0)
    ensures NoDuplicates(cs)
  {
    CutUpParts(cs, id, frame, 0);
  }

  lemma {:induction false} DifferentParts(cs: seq<Chunk>, id: nat, frame: bytes, a: Chunk, b: Chunk)
    requires CutUp(cs, id, frame, 0) && a in cs && b in cs && a != b
    ensures !Clash(Piece(a.start, a.data), Piece(b.start, b.data)) && |a.data| > 0 && |b.data| > 0
    ensures !(a.last && b.last)
  {
    CutUpParts(cs, id, frame, 0);
    var i :| 0 <= i < |cs| && cs[i] == a;
    var j :| 0 <= j < |cs| && cs[j] == b;
    assert Part(cs[i], id, frame, 0) && Part(cs[j], id, frame, 0);
  }

  // ---------- lists without duplicates ----------

  lemma {:induction false} ElementCount<T(!new)>(s: seq<T>, all: set<T>)
    requires all == set x | x in s
    ensures |all| <= |s|
    ensures NoDuplicates(s) ==> |all| == |s|
  {
    if s == [] {
      assert all == {};
    } else {
      var init, x := s[..|s| - 1], s[|s| - 1];
      var rest := set y | y in init;
      ElementCount(init, rest);
      assert s == init + [x];
      assert all == rest + {x};
    }
  }

  lemma {:induction false} SomeMissing<T(!new)>(all: seq<T>, some: seq<T>) returns (x: T)
    requires NoDuplicates(all) && |some| < |all|
    ensures x in all && x !in some
  {
    var a, b := set y | y in all, set y | y in some;
    ElementCount(all, a);
    ElementCount(some, b);
    if a <= b {
      SubsetCount(a, b);
    }
    x :| x in a && x !in b;
  }

  lemma {:induction false} NoneMissing<T(!new)>(all: seq<T>, some: seq<T>)
    requires NoDuplicates(all) && NoDuplicates(some) && |some| == |all|
    requires forall x :: x in some ==> x in all
    ensures forall x :: x in all ==> x in some
  {
    var a, b := set y | y in all, set y | y in some;
    ElementCount(all, a);
    ElementCount(some, b);
    SubsetCount(b, a);
    forall x | x in all ensures x in some {
      assert x in a;
    }
  }

  // ---------- one chunk of the frame ----------

  /** What has arrived of the frame so far: different chunks of it. */
  ghost predicate SomeOf(done: seq<Chunk>, cs: seq<Chunk>) {
    NoDuplicates(done) && forall i :: 0 <= i < |done| ==> done[i] in cs
  }

  predicate HasLast(done: seq<Chunk>) {
    exists i :: 0 <= i < |done| && done[i].last
  }

  /** The frame entry that the chunks `done` have left. */
  ghost predicate Holding(f: Frame, id: nat, done: seq<Chunk>, frame: bytes) {
    f.id == id && f.pieces == PiecesOf(done) && f.far <= |frame| && f.length == if HasLast(done) then |frame| else -1
  }

  lemma {:induction false} DonePieces(cs: seq<Chunk>, id: nat, frame: bytes, done: seq<Chunk>)
    requires CutUp(cs, id, frame, 0) && SomeOf(done, cs)
    ensures Disjoint(PiecesOf(done)) && Inside(PiecesOf(done), |frame|)
    ensures forall i :: 0 <= i < |done| ==> Part(done[i], id, frame, 0)
  {
    CutUpParts(cs, id, frame, 0);
    forall i, j | 0 <= i < j < |done| ensures !Clash(PiecesOf(done)[i], PiecesOf(done)[j]) {
      DifferentParts(cs, id, frame, done[i], done[j]);
    }
    forall i | 0 <= i < |done| ensures Part(done[i], id, frame, 0) {
      var k :| 0 <= k < |cs| && cs[k] == done[i];
    }
  }

  lemma {:induction false} AllCovered(cs: seq<Chunk>, id: nat, frame: bytes, done: seq<Chunk>, k: nat)
    requires CutUp(cs, id, frame, 0) && k < |frame| && forall c :: c in cs ==> c in done
    ensures k in Covered(PiecesOf(done))
  {
    CutUpCovers(cs, id, frame, 0, k);
    var i :| 0 <= i < |cs| && cs[i].start <= k < cs[i].start + |cs[i].data|;
    assert cs[i] in cs;
    var j :| 0 <= j < |done| && done[j] == cs[i];
    assert PiecesOf(done)[j].Holds(k);
    InCovered(PiecesOf(done), k);
  }

  /** With all chunks there the lengths add up, and the overlay is the frame. */
  lemma {:induction false} AllDone(cs: seq<Chunk>, id: nat, frame: bytes, done: seq<Chunk>)
    requires CutUp(cs, id, frame, 0) && SomeOf(done, cs) && |done| == |cs|
    ensures Total(PiecesOf(done)) == |frame| && Assembled(PiecesOf(done), |frame|) == frame && HasLast(done)
  {
    var ps := PiecesOf(done);
    PartsDistinct(cs, id, frame);
    NoneMissing(cs, done);
    DonePieces(cs, id, frame, done);
    forall k: nat | k < |frame| ensures k in Covered(ps) {
      AllCovered(cs, id, frame, done, k);
    }
    SumBounded(ps, |frame|);
    CoveredCount(ps);
    CellsCount(0, |frame|);
    SubsetCount(Range(0, |frame|), Covered(ps));
    AssembledUnique(ps, |frame|, frame);
    LastPart(cs, id, frame, 0);
    assert cs[|cs| - 1] in cs;
    var j :| 0 <= j < |done| && done[j] == cs[|cs| - 1];
  }

  lemma {:induction false} LastPart(cs: seq<Chunk>, id: nat, frame: bytes, pos: nat)
    requires CutUp(cs, id, frame, pos)
    ensures cs[|cs| - 1].last
  {
    if !cs[0].last {
      LastPart(cs[1..], id, frame, pos + |cs[0].data|);
    }
  }

  /** As long as a chunk is missing, so are its bytes. */
  lemma {:induction false} NotAllDone(cs: seq<Chunk>, id: nat, frame: bytes, done: seq<Chunk>)
    requires CutUp(cs, id, frame, 0) && SomeOf(done, cs) && 0 < |done| < |cs|
    ensures Total(PiecesOf(done)) < |frame|
  {
    var ps := PiecesOf(done);
    PartsDistinct(cs, id, frame);
    DonePieces(cs, id, frame, done);
    SumBounded(ps, |frame|);
    CutUpParts(cs, id, frame, 0);
    var m := SomeMissing(cs, done);
    var i :| 0 <= i < |cs| && cs[i] == m;
    assert Part(cs[i], id, frame, 0);
    if Total(ps) == |frame| {
      ExactCover(ps, |frame|, m.start);
      var h: nat :| OnlyHolder(ps, h, m.start);
      assert done[h] in done && done[h] in cs && m in cs;
      DifferentParts(cs, id, frame, done[h], m);
      assert false;
    }
  }

  lemma {:induction false} OwnAcceptable(cs: seq<Chunk>, id: nat, frame: bytes, done: seq<Chunk>, c: Chunk, f: Frame)
    requires CutUp(cs, id, frame, 0) && SomeOf(done + [c], cs) && Holding(f, id, done, frame)
    ensures Acceptable(f, Piece(c.start, c.data), c.last)
    ensures forall now: nat :: Holding(Added(f, Piece(c.start, c.data), c.last, now), id, done + [c], frame)
  {
    var all, q := done + [c], Piece(c.start, c.data);
    assert all[|done|] == c;
    DonePieces(cs, id, frame, all);
    assert Part(all[|done|], id, frame, 0);
    forall i | 0 <= i < |done| ensures !Clash(f.pieces[i], q) && !(done[i].last && c.last) {
      assert all[i] == done[i] && all[i] in cs && all[|done|] in cs;
      DifferentParts(cs, id, frame, done[i], c);
    }
    assert PiecesOf(all) == PiecesOf(done) + [q];
    if HasLast(done) {
      var i :| 0 <= i < |done| && done[i].last;
      assert all[i].last;
    } else if c.last {
      assert all[|done|].last;
    } else {
      assert forall i :: 0 <= i < |all| ==> all[i] == if i < |done| then done[i] else c;
    }
  }

  lemma {:induction false} PlaceFinal(cfg: Config, s: State, j: nat, cs: seq<Chunk>, id: nat, frame: bytes,
                                      done: seq<Chunk>, c: Chunk)
    requires CutUp(cs, id, frame, 0) && SomeOf(done + [c], cs) && j < |s.used| && Holding(s.used[j], id, done, frame)
    requires |done| + 1 == |cs|
    ensures Place(cfg, s, j, Piece(c.start, c.data), c.last) == (FreeFrame(s, j), Some(frame))
  {
    OwnAcceptable(cs, id, frame, done, c, s.used[j]);
    AllDone(cs, id, frame, done + [c]);
  }

  lemma {:induction false} PlaceEarlier(cfg: Config, s: State, j: nat, cs: seq<Chunk>, id: nat, frame: bytes,
                                        done: seq<Chunk>, c: Chunk)
    requires CutUp(cs, id, frame, 0) && SomeOf(done + [c], cs) && j < |s.used| && Holding(s.used[j], id, done, frame)
    requires |cs| <= cfg.numChunks && |done| + 1 < |cs|
    ensures var r := Place(cfg, s, j, Piece(c.start, c.data), c.last);
      r.1 == None && |r.0.used| == |s.used| && Holding(r.0.used[j], id, done + [c], frame)
  {
    var f' := Added(s.used[j], Piece(c.start, c.data), c.last, s.time);
    OwnAcceptable(cs, id, frame, done, c, s.used[j]);
    assert Holding(f', id, done + [c], frame);
    NotAllDone(cs, id, frame, done + [c]);
    assert !Complete(f') && |f'.pieces| < cfg.numChunks;
  }

  /** One more chunk of the frame: it goes in, and the frame is sent exactly when it was the last one missing. */
  lemma {:induction false} PlaceOwn(cfg: Config, s: State, j: nat, cs: seq<Chunk>, id: nat, frame: bytes,
                                    done: seq<Chunk>, c: Chunk)
    requires CutUp(cs, id, frame, 0) && SomeOf(done + [c], cs) && j < |s.used| && Holding(s.used[j], id, done, frame)
    requires |cs| <= cfg.numChunks && |done| < |cs|
    ensures var r := Place(cfg, s, j, Piece(c.start, c.data), c.last);
      if |done| + 1 == |cs| then r == (FreeFrame(s, j), Some(frame))
      else r.1 == None && |r.0.used| == |s.used| && Holding(r.0.used[j], id, done + [c], frame)
  {
    if |done| + 1 == |cs| {
      PlaceFinal(cfg, s, j, cs, id, frame, done, c);
    } else {
      PlaceEarlier(cfg, s, j, cs, id, frame, done, c);
    }
  }

  // ---------- whole runs ----------

  ghost function After(cfg: Config, s: State, e: Event): (r: State)
    requires cfg.Ok() && Inv(cfg, s)
    ensures Inv(cfg, r)
  {
    match e
    case Arrives(c) =>
      ProcessChunkKeeps(cfg, s, c);
      ProcessChunk(cfg, s, c).0
    case PacketEnds =>
      TickInv(cfg, s);
      Tick(cfg, s)
  }

  predicate IsOwn(e: Event, id: nat) {
    e.Arrives? && e.chunk.id == id
  }

  /** The chunks with this id among the events. */
  function Own(events: seq<Event>, id: nat): seq<Chunk> {
    if events == [] then []
    else (if IsOwn(events[0], id) then [events[0].chunk] else []) + Own(events[1..], id)
  }

  /** What the assembler sends on each of them. */
  ghost function Outcomes(cfg: Config, s: State, events: seq<Event>, id: nat): seq<Option<bytes>>
    requires cfg.Ok() && Inv(cfg, s)
    decreases |events|
  {
    if events == [] then []
    else
      (if IsOwn(events[0], id) then [ProcessChunk(cfg, s, events[0].chunk).1] else [])
      + Outcomes(cfg, After(cfg, s, events[0]), events[1..], id)
  }

  ghost predicate Present(s: State, id: nat) {
    Lookup(s.used, id) < |s.used|
  }

  /**
   While some but not all of the `total` chunks with this id have arrived, the frame is not evicted or
   purged by anything else, and it is not timed out when one of them comes.
   */
  ghost predicate Undisturbed(cfg: Config, s: State, events: seq<Event>, id: nat, fed: nat, total: nat)
    requires cfg.Ok() && Inv(cfg, s)
    decreases |events|
  {
    events != [] ==>
      var s' := After(cfg, s, events[0]);
      if IsOwn(events[0], id) then
        && (0 < fed < total && Present(s, id) ==> !TimedOut(cfg, s.time, s.used[Lookup(s.used, id)]))
        && Undisturbed(cfg, s', events[1..], id, fed + 1, total)
      else
        && (0 < fed < total ==> Present(s', id))
        && Undisturbed(cfg, s', events[1..], id, fed, total)
  }

  ghost predicate Absent(s: State, id: nat) {
    forall i :: 0 <= i < |s.used| ==> s.used[i].id != id
  }

  /** The state knows of the frame just what the chunks `done` say. */
  ghost predicate Tracked(s: State, id: nat, done: seq<Chunk>, cs: seq<Chunk>, frame: bytes) {
    if done == [] then Absent(s, id)
    else |done| < |cs| ==> Present(s, id) && Holding(s.used[Lookup(s.used, id)], id, done, frame)
  }

  /** Frames apart from their times. */
  ghost predicate SameButTime(f: Frame, g: Frame) {
    f.(time := 0) == g.(time := 0)
  }

  lemma {:induction false} StillThere(used: seq<Frame>, j: nat, k: nat)
    requires j < |used| && k < |used| - 1
    ensures Without(used, j)[k] in used
  {
    assert Without(used, j)[k] == used[if k < j then k else k + 1];
  }

  lemma {:induction false} AllocatedOther(cfg: Config, s: State, id: nat, k: nat)
    requires cfg.Ok() && |s.used| <= cfg.numFrames
    requires k < |Allocate(cfg, s, id).used| && Allocate(cfg, s, id).used[k].id != id
    ensures Allocate(cfg, s, id).used[k] in s.used
  {
    if |s.used| == cfg.numFrames && k < |s.used| - 1 {
      StillThere(s.used, 0, k);
    }
  }

  lemma {:induction false} FrameForOther(cfg: Config, s: State, id: nat, k: nat)
    requires cfg.Ok() && |s.used| <= cfg.numFrames
    requires k < |FrameFor(cfg, s, id).0.used| && FrameFor(cfg, s, id).0.used[k].id != id
    ensures FrameFor(cfg, s, id).0.used[k] in s.used
  {
    var j := Lookup(s.used, id);
    if j == |s.used| {
      AllocatedOther(cfg, s, id, k);
    } else if TimedOut(cfg, s.time, s.used[j]) {
      var s1 := FreeFrame(s, j);
      AllocatedOther(cfg, s1, id, k);
      var i :| 0 <= i < |s1.used| && s1.used[i] == FrameFor(cfg, s, id).0.used[k];
      StillThere(s.used, j, i);
    }
  }

  lemma {:induction false} PlaceOther(cfg: Config, s: State, j: nat, c: Piece, last: bool, k: nat) returns (i: nat)
    requires j < |s.used| && k < |Place(cfg, s, j, c, last).0.used|
    requires Place(cfg, s, j, c, last).0.used[k].id != s.used[j].id
    ensures i < |s.used| && s.used[i] == Place(cfg, s, j, c, last).0.used[k]
  {
    var r := Place(cfg, s, j, c, last).0;
    if |r.used| < |s.used| {
      i := if k < j then k else k + 1;
    } else {
      i := k;
    }
  }

  lemma {:induction false} OtherChunk(cfg: Config, s: State, c: Chunk, k: nat)
    requires cfg.Ok() && Inv(cfg, s)
    requires k < |ProcessChunk(cfg, s, c).0.used| && ProcessChunk(cfg, s, c).0.used[k].id != c.id
    ensures ProcessChunk(cfg, s, c).0.used[k] in s.used
  {
    if InBounds(cfg, c) {
      FrameForKeeps(cfg, s, c.id);
      var r := FrameFor(cfg, s, c.id);
      var i := PlaceOther(cfg, r.0, r.1, Piece(c.start, c.data), c.last, k);
      FrameForOther(cfg, s, c.id, i);
    }
  }

  lemma {:induction false} PurgedTick(cfg: Config, s: State, kept: seq<Frame>, k: nat)
    requires cfg.Ok() && Inv(cfg, s) && s.time == FPA_MAX_TIME && k < |Tick(cfg, s).used|
    requires kept == Survivors(cfg, s.time, s.used)
    ensures k < |kept| && SameButTime(Tick(cfg, s).used[k], kept[k]) && kept[k] in s.used
  {
    ReduceTimesExact(cfg, s);
    assert Tick(cfg, s).used == ReduceTimes(cfg, s).used;
    assert kept[k] in kept;
  }

  lemma {:induction false} OtherTick(cfg: Config, s: State, k: nat) returns (i: nat)
    requires cfg.Ok() && Inv(cfg, s) && k < |Tick(cfg, s).used|
    ensures i < |s.used| && SameButTime(Tick(cfg, s).used[k], s.used[i])
  {
    if s.time == FPA_MAX_TIME {
      var kept := Survivors(cfg, s.time, s.used);
      PurgedTick(cfg, s, kept, k);
      i :| i < |s.used| && s.used[i] == kept[k];
    } else {
      i := k;
    }
  }

  /** Other traffic leaves the frame as it is, unless it is thrown out. */
  lemma {:induction false} OtherEvent(cfg: Config, s: State, e: Event, id: nat, k: nat) returns (i: nat)
    requires cfg.Ok() && Inv(cfg, s) && !IsOwn(e, id)
    requires k < |After(cfg, s, e).used| && After(cfg, s, e).used[k].id == id
    ensures i < |s.used| && SameButTime(After(cfg, s, e).used[k], s.used[i])
  {
    match e
    case Arrives(c) =>
      OtherChunk(cfg, s, c, k);
      i :| i < |s.used| && s.used[i] == After(cfg, s, e).used[k];
    case PacketEnds =>
      i := OtherTick(cfg, s, k);
  }

  lemma {:induction false} OtherTracked(cfg: Config, s: State, e: Event, id: nat, done: seq<Chunk>, cs: seq<Chunk>,
                                        frame: bytes, s': State)
    requires cfg.Ok() && Inv(cfg, s) && !IsOwn(e, id) && Tracked(s, id, done, cs, frame) && s' == After(cfg, s, e)
    requires 0 < |done| < |cs| ==> Present(s', id)
    ensures Tracked(s', id, done, cs, frame)
  {
    if done == [] {
      forall k: nat | k < |s'.used| ensures s'.used[k].id != id {
        if s'.used[k].id == id {
          var i := OtherEvent(cfg, s, e, id, k);
          assert false;
        }
      }
    } else if |done| < |cs| {
      var i := OtherEvent(cfg, s, e, id, Lookup(s'.used, id));
      LookupUnique(s.used, i);
    }
  }

  /** The frame entry an own chunk goes to holds what has arrived before. */
  lemma {:induction false} OwnFrame(cfg: Config, s: State, id: nat, done: seq<Chunk>, cs: seq<Chunk>, frame: bytes)
    requires cfg.Ok() && Inv(cfg, s) && Tracked(s, id, done, cs, frame) && |done| < |cs|
    requires done != [] ==> !TimedOut(cfg, s.time, s.used[Lookup(s.used, id)])
    ensures var r := FrameFor(cfg, s, id); Inv(cfg, r.0) && Holding(r.0.used[r.1], id, done, frame)
  {
    FrameForKeeps(cfg, s, id);
    if done == [] {
      assert Lookup(s.used, id) == |s.used|;
      assert PiecesOf(done) == [];
    }
  }

  lemma {:induction false} OwnEvent(cfg: Config, s: State, id: nat, done: seq<Chunk>, cs: seq<Chunk>, frame: bytes,
                                    c: Chunk, s': State)
    requires cfg.Ok() && Inv(cfg, s) && CutUp(cs, id, frame, 0) && Tracked(s, id, done, cs, frame)
    requires |cs| <= cfg.numChunks && |frame| <= cfg.outputMtu && |done| < |cs|
    requires SomeOf(done + [c], cs) && s' == ProcessChunk(cfg, s, c).0
    requires done != [] ==> !TimedOut(cfg, s.time, s.used[Lookup(s.used, id)])
    ensures ProcessChunk(cfg, s, c).1 == if |done| + 1 == |cs| then Some(frame) else None
    ensures Tracked(s', id, done + [c], cs, frame)
  {
    DonePieces(cs, id, frame, done + [c]);
    assert (done + [c])[|done|] == c;
    assert c.id == id && InBounds(cfg, c);
    OwnFrame(cfg, s, id, done, cs, frame);
    var r := FrameFor(cfg, s, id);
    PlaceOwn(cfg, r.0, r.1, cs, id, frame, done, c);
    if |done| + 1 < |cs| {
      ProcessChunkKeeps(cfg, s, c);
      LookupUnique(s'.used, r.1);
    }
  }

  /** From here on, the outcomes are nothing until the last chunk is there, and then the frame. */
  ghost predicate DeliversAtLast(o: seq<Option<bytes>>, fed: nat, own: nat, total: nat, frame: bytes) {
    && |o| == own
    && forall i :: 0 <= i < |o| ==> o[i] == if fed + i + 1 == total then Some(frame) else None
  }

  lemma {:induction false} OwnThenRest(cfg: Config, s: State, events: seq<Event>, id: nat, fed: nat, total: nat,
                                       frame: bytes)
    requires cfg.Ok() && Inv(cfg, s) && events != [] && IsOwn(events[0], id)
    requires ProcessChunk(cfg, s, events[0].chunk).1 == if fed + 1 == total then Some(frame) else None
    requires DeliversAtLast(Outcomes(cfg, After(cfg, s, events[0]), events[1..], id), fed + 1,
                            |Own(events[1..], id)|, total, frame)
    ensures DeliversAtLast(Outcomes(cfg, s, events, id), fed, |Own(events, id)|, total, frame)
  {
    var o, rest := Outcomes(cfg, s, events, id), Outcomes(cfg, After(cfg, s, events[0]), events[1..], id);
    assert o == [ProcessChunk(cfg, s, events[0].chunk).1] + rest;
  }

  /**
   The chunks of one frame, arriving in any order, repeated by nothing and with other traffic in between that
   neither evicts the frame nor lets it time out: the last to arrive sends the frame, and no other does.
   */
  lemma {:induction false} AnyOrderDelivers(cfg: Config, s: State, events: seq<Event>, id: nat, cs: seq<Chunk>,
                                            frame: bytes, done: seq<Chunk>)
    requires cfg.Ok() && Inv(cfg, s) && CutUp(cs, id, frame, 0)
    requires |cs| <= cfg.numChunks && |frame| <= cfg.outputMtu
    requires Tracked(s, id, done, cs, frame) && SomeOf(done + Own(events, id), cs)
    requires Undisturbed(cfg, s, events, id, |done|, |cs|)
    ensures DeliversAtLast(Outcomes(cfg, s, events, id), |done|, |Own(events, id)|, |cs|, frame)
    decreases |events|, 1
  {
    if events != [] {
      if IsOwn(events[0], id) {
        assert done + Own(events, id) == done + [events[0].chunk] + Own(events[1..], id);
        UndisturbedOwn(cfg, s, events, id, |done|, |cs|);
        OwnOrderDelivers(cfg, s, events[0].chunk, events[1..], id, cs, frame, done, After(cfg, s, events[0]));
        OwnThenRest(cfg, s, events, id, |done|, |cs|, frame);
      } else {
        var s' := After(cfg, s, events[0]);
        assert Own(events, id) == Own(events[1..], id);
        OtherTracked(cfg, s, events[0], id, done, cs, frame, s');
        AnyOrderDelivers(cfg, s', events[1..], id, cs, frame, done);
        assert Outcomes(cfg, s, events, id) == Outcomes(cfg, s', events[1..], id);
      }
    }
  }

  lemma {:induction false} UndisturbedOwn(cfg: Config, s: State, events: seq<Event>, id: nat, fed: nat, total: nat)
    requires cfg.Ok() && Inv(cfg, s) && events != [] && IsOwn(events[0], id)
    requires Undisturbed(cfg, s, events, id, fed, total)
    ensures 0 < fed < total && Present(s, id) ==> !TimedOut(cfg, s.time, s.used[Lookup(s.used, id)])
    ensures Undisturbed(cfg, After(cfg, s, events[0]), events[1..], id, fed + 1, total)
  {
  }

  lemma {:induction false} OwnOrderDelivers(cfg: Config, s: State, c: Chunk, tail: seq<Event>, id: nat,
                                            cs: seq<Chunk>, frame: bytes, done: seq<Chunk>, s': State)
    requires cfg.Ok() && Inv(cfg, s) && CutUp(cs, id, frame, 0)
    requires |cs| <= cfg.numChunks && |frame| <= cfg.outputMtu
    requires Tracked(s, id, done, cs, frame) && SomeOf(done + [c] + Own(tail, id), cs)
    requires 0 < |done| < |cs| && Present(s, id) ==> !TimedOut(cfg, s.time, s.used[Lookup(s.used, id)])
    requires s' == After(cfg, s, Arrives(c)) && Undisturbed(cfg, s', tail, id, |done| + 1, |cs|)
    ensures ProcessChunk(cfg, s, c).1 == if |done| + 1 == |cs| then Some(frame) else None
    ensures DeliversAtLast(Outcomes(cfg, s', tail, id), |done| + 1, |Own(tail, id)|, |cs|, frame)
    decreases |tail| + 1, 0
  {
    OwnStep(cfg, s, c, Own(tail, id), id, cs, frame, done, s');
    AnyOrderDelivers(cfg, s', tail, id, cs, frame, done + [c]);
  }

  lemma {:induction false} OwnStep(cfg: Config, s: State, c: Chunk, rest: seq<Chunk>, id: nat, cs: seq<Chunk>,
                                   frame: bytes, done: seq<Chunk>, s': State)
    requires cfg.Ok() && Inv(cfg, s) && CutUp(cs, id, frame, 0)
    requires |cs| <= cfg.numChunks && |frame| <= cfg.outputMtu
    requires Tracked(s, id, done, cs, frame) && SomeOf(done + [c] + rest, cs)
    requires 0 < |done| < |cs| && Present(s, id) ==> !TimedOut(cfg, s.time, s.used[Lookup(s.used, id)])
    requires s' == After(cfg, s, Arrives(c))
    ensures Inv(cfg, s') && Tracked(s', id, done + [c], cs, frame)
    ensures ProcessChunk(cfg, s, c).1 == if |done| + 1 == |cs| then Some(frame) else None
  {
    SomeOfParts(done, c, rest, cs);
    ProcessChunkKeeps(cfg, s, c);
    OwnEvent(cfg, s, id, done, cs, frame, c, s');
  }

  lemma {:induction false} SomeOfParts(done: seq<Chunk>, c: Chunk, rest: seq<Chunk>, cs: seq<Chunk>)
    requires SomeOf(done + [c] + rest, cs)
    ensures SomeOf(done + [c], cs) && |done| < |cs|
  {
    var all := done + [c] + rest;
    forall i | 0 <= i < |done| + 1 ensures (done + [c])[i] == all[i] {
    }
    assert NoDuplicates(done + [c]);
    var a, b := set y | y in done + [c], set y | y in cs;
    ElementCount(done + [c], a);
    ElementCount(cs, b);
    assert a <= b;
    SubsetCount(a, b);
  }

  /** A permutation of the chunks of a frame is a list of different chunks of it. */
  lemma {:induction false} PermutationParts(cs: seq<Chunk>, perm: seq<Chunk>)
    requires NoDuplicates(cs) && multiset(perm) == multiset(cs)
    ensures SomeOf(perm, cs) && |perm| == |cs|
  {
    assert |perm| == |multiset(perm)| == |cs|;
    forall i | 0 <= i < |perm| ensures perm[i] in cs {
      assert perm[i] in multiset(perm);
    }
    var a, b := set y | y in perm, set y | y in cs;
    ElementCount(cs, b);
    forall y | y in b ensures y in a {
      assert y in multiset(cs);
    }
    assert a == b;
    CountDistinct(perm, a);
  }

  /** A list as long as its set of elements has no duplicates. */
  lemma {:induction false} CountDistinct<T(!new)>(s: seq<T>, all: set<T>)
    requires all == (set x | x in s) && |all| == |s|
    ensures NoDuplicates(s)
  {
    if s != [] {
      var init, x := s[..|s| - 1], s[|s| - 1];
      var rest := set y | y in init;
      assert s == init + [x];
      assert all == rest + {x};
      ElementCount(init, rest);
      CountDistinct(init, rest);
      assert x !in init;
    }
  }

  /** Every permutation of a frame's chunks makes for one delivery, of that frame, at its last chunk. */
  lemma {:induction false} PermutationDelivers(cfg: Config, s: State, events: seq<Event>, id: nat, cs: seq<Chunk>,
                                               frame: bytes)
    requires cfg.Ok() && Inv(cfg, s) && CutUp(cs, id, frame, 0)
    requires |cs| <= cfg.numChunks && |frame| <= cfg.outputMtu
    requires multiset(Own(events, id)) == multiset(cs) && Absent(s, id)
    requires Undisturbed(cfg, s, events, id, 0, |cs|)
    ensures var o := Outcomes(cfg, s, events, id);
      |o| == |cs| && o[|cs| - 1] == Some(frame) && forall i :: 0 <= i < |cs| - 1 ==> o[i] == None
  {
    PartsDistinct(cs, id, frame);
    PermutationParts(cs, Own(events, id));
    assert [] + Own(events, id) == Own(events, id);
    AnyOrderDelivers(cfg, s, events, id, cs, frame, []);
  }

  /** After `before` the stream is in frame n, stays there during cs, and ends it with the last chunk of cs. */
  ghost predicate Through(frames: seq<bytes>, before: seq<Chunk>, cs: seq<Chunk>, n: nat) {
    forall i :: 0 <= i <= |cs| ==>
      && Reached(frames, before + cs[..i]).Some?
      && Reached(frames, before + cs[..i]).value.done == if i < |cs| then n else n + 1
  }

  lemma {:induction false} OneMore(frames: seq<bytes>, before: seq<Chunk>, c: Chunk, p: Progress)
    requires Reached(frames, before) == Some(p) && Reached(frames, before + [c]).Some?
    ensures p.done < |frames| && Cut(c, FrameId(p.done), frames[p.done], p.pos)
    ensures Reached(frames, before + [c]) ==
      Some(if c.last then Progress(p.done + 1, 0, 0) else Progress(p.done, p.pos + |c.data|, p.count + 1))
  {
    var next := before + [c];
    assert next[..|next| - 1] == before && next[|next| - 1] == c;
  }

  lemma {:induction false} ThroughFirst(frames: seq<bytes>, before: seq<Chunk>, cs: seq<Chunk>, n: nat, p: Progress)
    requires cs != [] && Through(frames, before, cs, n) && Reached(frames, before) == Some(p)
    ensures p.done == n && n < |frames| && Cut(cs[0], FrameId(n), frames[n], p.pos)
    ensures if cs[0].last then |cs| == 1
            else |cs| > 1 && Reached(frames, before + [cs[0]]) == Some(Progress(n, p.pos + |cs[0].data|, p.count + 1))
  {
    assert before + cs[..0] == before && before + cs[..1] == before + [cs[0]];
    OneMore(frames, before, cs[0], p);
  }

  lemma {:induction false} ThroughRest(frames: seq<bytes>, before: seq<Chunk>, cs: seq<Chunk>, n: nat)
    requires cs != [] && Through(frames, before, cs, n)
    ensures Through(frames, before + [cs[0]], cs[1..], n)
  {
    forall i | 0 <= i <= |cs[1..]| ensures before + [cs[0]] + cs[1..][..i] == before + cs[..i + 1] {
      assert cs[..i + 1] == [cs[0]] + cs[1..][..i];
    }
  }

  /** The chunks that take an in-order stream through its frame n are what frame n is cut up into. */
  lemma {:induction false} StreamCutsUp(frames: seq<bytes>, before: seq<Chunk>, cs: seq<Chunk>, n: nat, p: Progress)
    requires cs != [] && Through(frames, before, cs, n) && Reached(frames, before) == Some(p)
    ensures n < |frames| && CutUp(cs, FrameId(n), frames[n], p.pos)
    decreases |cs|
  {
    ThroughFirst(frames, before, cs, n, p);
    if !cs[0].last {
      ThroughRest(frames, before, cs, n);
      StreamCutsUp(frames, before + [cs[0]], cs[1..], n, Progress(n, p.pos + |cs[0].data|, p.count + 1));
    }
  }
}
