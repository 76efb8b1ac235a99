/** What the chunks of cut-up frames do to the assembler, in order or not. */
module FragmentStream {
  import opened Bytes
  import opened Common
  import opened Fragment
  import opened FragmentClock

  /** c is the chunk of `frame` that starts at pos. */
  ghost predicate Cut(c: Chunk, id: nat, frame: bytes, pos: nat) {
    && c.id == id && c.start == pos && pos + |c.data| <= |frame|
    && c.data == frame[pos..pos + |c.data|]
    && (c.last <==> pos + |c.data| == |frame|)
    && (|c.data| > 0 || |frame| == 0)
  }

  /** How far a stream of chunks has got: frames finished, bytes and chunks of the next one. */
  datatype Progress = Progress(done: nat, pos: nat, count: nat)

  function FrameId(n: nat): nat { n % UINT16_LIMIT }

  /** Frame ids count up in sixteen bits. */
  lemma {:induction false} FrameIdCounts(n: nat)
    ensures FrameId(0) == 0 && FrameId(n + 1) == if FrameId(n) == 0xFFFF then 0 else FrameId(n) + 1
  {
  }

  /** Where a chunk stream that cuts up `frames` in order has got to, or None if it does not do that. */
  ghost function Reached(frames: seq<bytes>, cs: seq<Chunk>): Option<Progress> {
    if cs == [] then Some(Progress(0, 0, 0))
    else
      var p, c := Reached(frames, cs[..|cs| - 1]), cs[|cs| - 1];
      if p.None? || p.value.done >= |frames| || !Cut(c, FrameId(p.value.done), frames[p.value.done], p.value.pos) then None
      else if c.last then Some(Progress(p.value.done + 1, 0, 0))
      else Some(Progress(p.value.done, p.value.pos + |c.data|, p.value.count + 1))
  }

  /** No frame takes more than max chunks: as long as its last one is missing, it has fewer. */
  ghost predicate Few(frames: seq<bytes>, cs: seq<Chunk>, max: nat) {
    max > 0 && (cs != [] ==>
      var p := Reached(frames, cs);
      Few(frames, cs[..|cs| - 1], max) && (p.Some? ==> p.value.count < max))
  }

  /** Within a frame, every chunk but the first and the last has cap bytes at least. */
  ghost predicate Spread(frames: seq<bytes>, cs: seq<Chunk>, cap: nat) {
    cs != [] ==>
      var p := Reached(frames, cs);
      Spread(frames, cs[..|cs| - 1], cap)
      && (p.Some? && p.value.count >= 1 ==> p.value.pos >= 1 + (p.value.count - 1) * cap)
  }

  function DivideUp(a: nat, b: nat): nat
    requires b > 0
  {
    (a + b - 1) / b
  }

  /** The chunks a frame of this length needs at most. */
  function ChunkBound(cap: nat, length: nat): nat
    requires cap > 0
  {
    if length == 0 then 1 else 1 + DivideUp(length - 1, cap)
  }

  /** fragmentproto_max_chunks_for_frame */
  function MaxChunksForFrame(carrierMtu: nat, frameMtu: nat): nat
    requires carrierMtu > HEADER
  {
    DivideUp(frameMtu, carrierMtu - HEADER) + 1
  }

  /**
   The two bounds are the least numbers of chunks such that all but one of them, filled, hold the frame; and such that
   all but one hold all of the frame but its first byte.
   */
  lemma {:induction false} BoundsExact(carrierMtu: nat, length: nat)
    requires carrierMtu > HEADER
    ensures var cap, n := carrierMtu - 7, MaxChunksForFrame(carrierMtu, length);
      n >= 1 && (n - 1) * cap >= length && (length > 0 ==> (n - 2) * cap < length)
    ensures var cap, n := carrierMtu - 7, ChunkBound(carrierMtu - 7, length);
      n >= 1 && (n - 1) * cap >= length - 1 && (length > 1 ==> (n - 2) * cap < length - 1)
  {
    DivideUpExact(length, carrierMtu - HEADER);
    if length > 0 { DivideUpExact(length - 1, carrierMtu - HEADER); }
  }

  lemma {:induction false} DivideUpExact(a: nat, b: nat)
    requires b > 0
    ensures DivideUp(a, b) * b >= a && (DivideUp(a, b) - 1) * b < a + (if a == 0 then 1 else 0)
  {
    var x := a + b - 1;
    assert (x / b) * b <= x < (x / b) * b + b;
    assert (x / b - 1) * b == (x / b) * b - b;
  }

  lemma {:induction false} FewerTimes(a: int, b: int, c: int)
    requires c > 0 && a * c < b * c
    ensures a < b
  {
  }

  lemma {:induction false} CountBound(cap: nat, count: nat, pos: nat, length: nat)
    requires cap > 0 && pos < length && (count >= 1 ==> pos >= 1 + (count - 1) * cap)
    ensures count < ChunkBound(cap, length)
  {
    if count >= 1 {
      FewerTimes(count - 1, DivideUp(length - 1, cap), cap);
    }
  }

  lemma {:induction false} BoundGrows(cap: nat, a: nat, b: nat)
    requires cap > 0 && a <= b
    ensures ChunkBound(cap, a) <= ChunkBound(cap, b)
    ensures ChunkBound(cap, b) <= DivideUp(b, cap) + 1
  {
    if a > 0 {
      DivideUpGrows(cap, a - 1, b - 1);
    }
    if b > 0 {
      DivideUpGrows(cap, b - 1, b);
    }
  }

  lemma {:induction false} DivideUpGrows(cap: nat, a: nat, b: nat)
    requires cap > 0 && a <= b
    ensures DivideUp(a, cap) <= DivideUp(b, cap)
  {
    var x, y := a + cap - 1, b + cap - 1;
    assert (x / cap) * cap <= x && y < (y / cap) * cap + cap;
    FewerTimes(x / cap, y / cap + 1, cap);
  }

  ghost predicate AtMost(frames: seq<bytes>, n: nat) {
    forall i :: 0 <= i < |frames| ==> |frames[i]| <= n
  }

  /** Spread-out chunks are few: one bound that is exact, and the looser one of the protocol's header. */
  lemma {:induction false} SpreadIsFew(frames: seq<bytes>, cs: seq<Chunk>, cap: nat, longest: nat)
    requires cap > 0 && AtMost(frames, longest)
    requires Reached(frames, cs).Some? && Spread(frames, cs, cap)
    ensures Few(frames, cs, ChunkBound(cap, longest))
    ensures Few(frames, cs, DivideUp(longest, cap) + 1)
  {
    BoundGrows(cap, 0, longest);
    if cs != [] {
      SpreadIsFew(frames, cs[..|cs| - 1], cap, longest);
      ReachedInside(frames, cs);
      var p := Reached(frames, cs).value;
      if p.count > 0 {
        var l := |frames[p.done]|;
        CountBound(cap, p.count, p.pos, l);
        BoundGrows(cap, l, longest);
      }
    }
  }

  lemma {:induction false} ReachedInside(frames: seq<bytes>, cs: seq<Chunk>)
    requires Reached(frames, cs).Some?
    ensures var p := Reached(frames, cs).value;
      && p.done <= |frames|
      && (p.pos == 0 <==> p.count == 0)
      && (p.pos > 0 ==> p.done < |frames| && p.pos < |frames[p.done]|)
  {
    if cs != [] {
      ReachedInside(frames, cs[..|cs| - 1]);
    }
  }

  // ---------- in order ----------

  /** ps are the first pos bytes of the frame. */
  ghost predicate Tiles(ps: seq<Piece>, frame: bytes, pos: nat) {
    && Disjoint(ps) && Inside(ps, pos) && Total(ps) == pos <= |frame|
    && forall i :: 0 <= i < |ps| ==> ps[i].data == frame[ps[i].start..ps[i].End()]
  }

  /** The assembler has exactly what the stream has got to; the frame under way is `age` packets old at most. */
  ghost predicate Follows(s: State, frames: seq<bytes>, p: Progress, age: nat) {
    if p.count == 0 then s.used == [] && p.pos == 0
    else
      && p.done < |frames| && p.pos <= |frames[p.done]| && |s.used| == 1
      && Gathering(s.used[0], frames[p.done], p)
      && s.used[0].time <= s.time <= s.used[0].time + age
  }

  lemma {:induction false} TilesGrow(ps: seq<Piece>, frame: bytes, pos: nat, c: Piece)
    requires Tiles(ps, frame, pos) && c.start == pos && c.End() <= |frame| && c.data == frame[c.start..c.End()]
    ensures Tiles(ps + [c], frame, c.End())
    ensures forall i :: 0 <= i < |ps| ==> !Clash(ps[i], c)
  {
    var qs := ps + [c];
    assert qs[..|qs| - 1] == ps;
  }

  lemma {:induction false} TilesWhole(ps: seq<Piece>, frame: bytes)
    requires Tiles(ps, frame, |frame|)
    ensures Assembled(ps, |frame|) == frame
  {
    AssembledUnique(ps, |frame|, frame);
  }

  /** The frame the next chunk goes to. */
  lemma {:induction false} FrameForNext(cfg: Config, s: State, frames: seq<bytes>, p: Progress)
    requires cfg.Ok() && Follows(s, frames, p, 1) && p.done < |frames|
    ensures var r := FrameFor(cfg, s, FrameId(p.done));
      r.1 == 0 && r.0.time == s.time && |r.0.used| == 1 && Gathering(r.0.used[0], frames[p.done], p)
  {
  }

  /** The frame entry of an in-order frame that has got to pos. */
  ghost predicate Gathering(f: Frame, frame: bytes, p: Progress) {
    && f.id == FrameId(p.done) && f.length == -1 && f.far <= p.pos && |f.pieces| == p.count
    && Tiles(f.pieces, frame, p.pos)
  }

  lemma {:induction false} PlaceLast(cfg: Config, s: State, frame: bytes, p: Progress, c: Piece)
    requires |s.used| == 1 && Gathering(s.used[0], frame, p) && c.start == p.pos && c.End() == |frame|
    requires c.data == frame[c.start..c.End()]
    ensures Place(cfg, s, 0, c, true) == (State(s.time, []), Some(frame))
  {
    var f := s.used[0];
    TilesGrow(f.pieces, frame, p.pos, c);
    TilesWhole(f.pieces + [c], frame);
  }

  lemma {:induction false} PlaceNext(cfg: Config, s: State, frame: bytes, p: Progress, c: Piece)
    requires |s.used| == 1 && Gathering(s.used[0], frame, p) && c.start == p.pos && c.End() < |frame|
    requires c.data == frame[c.start..c.End()] && p.count + 1 < cfg.numChunks
    ensures var r := Place(cfg, s, 0, c, false);
      && r.1 == None && r.0.time == s.time && |r.0.used| == 1 && r.0.used[0].time == s.time
      && Gathering(r.0.used[0], frame, Progress(p.done, c.End(), p.count + 1))
  {
    var f := s.used[0];
    TilesGrow(f.pieces, frame, p.pos, c);
  }

  /** One chunk in order: accepted, and its frame is sent when it is the last. */
  lemma {:induction false} NextChunk(cfg: Config, s: State, frames: seq<bytes>, p: Progress, c: Chunk, p': Progress)
    requires cfg.Ok() && Follows(s, frames, p, 1) && p.done < |frames| && p'.count < cfg.numChunks
    requires Cut(c, FrameId(p.done), frames[p.done], p.pos) && |frames[p.done]| <= cfg.outputMtu
    requires p' == if c.last then Progress(p.done + 1, 0, 0) else Progress(p.done, p.pos + |c.data|, p.count + 1)
    ensures ProcessChunk(cfg, s, c).1 == if c.last then Some(frames[p.done]) else None
    ensures Follows(ProcessChunk(cfg, s, c).0, frames, p', 0)
  {
    FrameForNext(cfg, s, frames, p);
    var r := FrameFor(cfg, s, c.id);
    assert Gathering(r.0.used[0], frames[p.done], p);
    assert ProcessChunk(cfg, s, c) == Place(cfg, r.0, r.1, Piece(c.start, c.data), c.last);
    if c.last {
      PlaceLast(cfg, r.0, frames[p.done], p, Piece(c.start, c.data));
    } else {
      PlaceNext(cfg, r.0, frames[p.done], p, Piece(c.start, c.data));
    }
  }

  function Flatten(packets: seq<seq<Chunk>>): seq<Chunk> {
    if packets == [] then [] else Flatten(packets[..|packets| - 1]) + packets[|packets| - 1]
  }

  function Arrivals(cs: seq<Chunk>): (r: seq<Event>)
    ensures |r| == |cs|
  {
    seq(|cs|, i requires 0 <= i < |cs| => Arrives(cs[i]))
  }

  /** The packets arriving one after the other. */
  function Events(packets: seq<seq<Chunk>>): seq<Event> {
    if packets == [] then []
    else Events(packets[..|packets| - 1]) + Arrivals(packets[|packets| - 1]) + [PacketEnds]
  }

  lemma {:induction false} RunSplit(cfg: Config, s: State, a: seq<Event>, b: seq<Event>)
    requires cfg.Ok() && Inv(cfg, s)
    ensures var r, q := Run(cfg, s, a), Run(cfg, Run(cfg, s, a).0, b);
      Run(cfg, s, a + b).0 == q.0 && Run(cfg, s, a + b).1 == r.1 + q.1
    decreases |a|
  {
    if a == [] {
      assert a + b == b;
    } else {
      assert (a + b)[1..] == a[1..] + b && (a + b)[0] == a[0];
      match a[0]
      case Arrives(c) =>
        ProcessChunkKeeps(cfg, s, c);
        RunSplit(cfg, ProcessChunk(cfg, s, c).0, a[1..], b);
      case PacketEnds =>
        TickInv(cfg, s);
        RunSplit(cfg, Tick(cfg, s), a[1..], b);
    }
  }

  lemma {:induction false} RunOne(cfg: Config, s: State, e: Event)
    requires cfg.Ok() && Inv(cfg, s)
    ensures e.Arrives? ==>
      var q := ProcessChunk(cfg, s, e.chunk); Run(cfg, s, [e]).0 == q.0 && Run(cfg, s, [e]).1 == Sent(q.1)
    ensures e.PacketEnds? ==> Run(cfg, s, [e]).0 == Tick(cfg, s) && Run(cfg, s, [e]).1 == []
  {
    assert [e][1..] == [];
    if e.Arrives? {
      ProcessChunkKeeps(cfg, s, e.chunk);
    } else {
      TickInv(cfg, s);
    }
  }

  /** The run so far has sent the finished frames and holds what is there of the next one. */
  ghost predicate DeliveredSo(cfg: Config, s: State, events: seq<Event>, frames: seq<bytes>, p: Progress, age: nat)
    requires cfg.Ok() && Inv(cfg, s)
  {
    var r := Run(cfg, s, events);
    p.done <= |frames| && r.1 == frames[..p.done] && Follows(r.0, frames, p, age)
  }

  /** DeliveredSo, wrapped so that the induction below carries it along by name. */
  ghost predicate Delivered(cfg: Config, s: State, events: seq<Event>, frames: seq<bytes>, p: Progress, age: nat,
                            k: nat := 3)
    requires cfg.Ok() && Inv(cfg, s)
  {
    if k == 0 then DeliveredSo(cfg, s, events, frames, p, age)
    else Delivered(cfg, s, events, frames, p, age, k - 1)
  }

  lemma {:induction false} DeliveredOpen(cfg: Config, s: State, events: seq<Event>, frames: seq<bytes>, p: Progress,
                                         age: nat, k: nat := 3)
    requires cfg.Ok() && Inv(cfg, s) && Delivered(cfg, s, events, frames, p, age, k)
    ensures DeliveredSo(cfg, s, events, frames, p, age)
  {
    if k > 0 { DeliveredOpen(cfg, s, events, frames, p, age, k - 1); }
  }

  lemma {:induction false} DeliveredClose(cfg: Config, s: State, events: seq<Event>, frames: seq<bytes>, p: Progress,
                                          age: nat, k: nat := 3)
    requires cfg.Ok() && Inv(cfg, s) && DeliveredSo(cfg, s, events, frames, p, age)
    ensures Delivered(cfg, s, events, frames, p, age, k)
  {
    if k > 0 { DeliveredClose(cfg, s, events, frames, p, age, k - 1); }
  }

  lemma {:induction false} DeliverChunk(cfg: Config, s: State, events: seq<Event>, frames: seq<bytes>, p: Progress,
                                        c: Chunk, p': Progress)
    requires cfg.Ok() && Inv(cfg, s) && Delivered(cfg, s, events, frames, p, 1)
    requires p.done < |frames| && p'.count < cfg.numChunks
    requires Cut(c, FrameId(p.done), frames[p.done], p.pos) && |frames[p.done]| <= cfg.outputMtu
    requires p' == if c.last then Progress(p.done + 1, 0, 0) else Progress(p.done, p.pos + |c.data|, p.count + 1)
    ensures Delivered(cfg, s, events + [Arrives(c)], frames, p', 0)
  {
    DeliveredOpen(cfg, s, events, frames, p, 1);
    RunSplit(cfg, s, events, [Arrives(c)]);
    RunOne(cfg, Run(cfg, s, events).0, Arrives(c));
    NextChunk(cfg, Run(cfg, s, events).0, frames, p, c, p');
    DeliveredClose(cfg, s, events + [Arrives(c)], frames, p', 0);
  }

  lemma {:induction false} ReachedLast(frames: seq<bytes>, cs: seq<Chunk>, p: Progress, p': Progress, max: nat)
    requires cs != [] && Reached(frames, cs) == Some(p') && Few(frames, cs, max)
    requires Reached(frames, cs[..|cs| - 1]) == Some(p)
    ensures p.done < |frames| && p'.count < max
    ensures var c := cs[|cs| - 1];
      && Cut(c, FrameId(p.done), frames[p.done], p.pos)
      && p' == if c.last then Progress(p.done + 1, 0, 0) else Progress(p.done, p.pos + |c.data|, p.count + 1)
  {
  }

  lemma {:induction false} DeliveredLater(cfg: Config, s: State, events: seq<Event>, frames: seq<bytes>, p: Progress)
    requires cfg.Ok() && Inv(cfg, s) && Delivered(cfg, s, events, frames, p, 0)
    ensures Delivered(cfg, s, events, frames, p, 1)
  {
    DeliveredOpen(cfg, s, events, frames, p, 0);
    DeliveredClose(cfg, s, events, frames, p, 1);
  }

  /** The chunks of one packet, in order after the stream `before`. */
  lemma {:induction false} DeliverPacket(cfg: Config, s: State, events: seq<Event>, frames: seq<bytes>,
                                         before: seq<Chunk>, cs: seq<Chunk>, p': Progress)
    requires cfg.Ok() && Inv(cfg, s) && AtMost(frames, cfg.outputMtu) && cs != []
    requires Reached(frames, before).Some? && Delivered(cfg, s, events, frames, Reached(frames, before).value, 1)
    requires Reached(frames, before + cs) == Some(p') && Few(frames, before + cs, cfg.numChunks)
    ensures Delivered(cfg, s, events + Arrivals(cs), frames, p', 0)
  {
    var init, c := cs[..|cs| - 1], cs[|cs| - 1];
    assert (before + cs)[..|before + cs| - 1] == before + init;
    var p := Reached(frames, before + init).value;
    ReachedLast(frames, before + cs, p, p', cfg.numChunks);
    if init == [] {
      assert before + init == before && events + Arrivals(init) == events;
    } else {
      DeliverPacket(cfg, s, events, frames, before, init, p);
      DeliveredLater(cfg, s, events + Arrivals(init), frames, p);
    }
    DeliverChunk(cfg, s, events + Arrivals(init), frames, p, c, p');
    assert events + Arrivals(cs) == events + Arrivals(init) + [Arrives(c)];
  }

  lemma {:induction false} DeliverTick(cfg: Config, s: State, events: seq<Event>, frames: seq<bytes>, p: Progress)
    requires cfg.Ok() && Inv(cfg, s) && Delivered(cfg, s, events, frames, p, 0)
    ensures Delivered(cfg, s, events + [PacketEnds], frames, p, 1)
  {
    DeliveredOpen(cfg, s, events, frames, p, 0);
    RunSplit(cfg, s, events, [PacketEnds]);
    RunOne(cfg, Run(cfg, s, events).0, PacketEnds);
    TickFollows(cfg, Run(cfg, s, events).0, frames, p);
    DeliveredClose(cfg, s, events + [PacketEnds], frames, p, 1);
  }

  lemma {:induction false} TickFollows(cfg: Config, s: State, frames: seq<bytes>, p: Progress)
    requires Follows(s, frames, p, 0) && forall f <- s.used :: f.time <= s.time
    ensures Follows(Tick(cfg, s), frames, p, 1)
  {
    if p.count > 0 {
      var f := s.used[0];
      assert s.used == [f];
      assert Survivors(cfg, s.time, s.used) == s.used by {
        assert Survivors(cfg, s.time, s.used[..0]) == [];
      }
    }
  }

  /**
   In order and without loss, the frames that were cut up come out again, each one when its last chunk
   has arrived, however the chunks were packed: whatever the ids wrap to and the clock stands at.
   */
  lemma {:induction false} InOrderDelivers(cfg: Config, s: State, packets: seq<seq<Chunk>>, frames: seq<bytes>)
    requires cfg.Ok() && Inv(cfg, s) && s.used == []
    requires forall i :: 0 <= i < |packets| ==> packets[i] != []
    requires Reached(frames, Flatten(packets)).Some? && Few(frames, Flatten(packets), cfg.numChunks)
    requires AtMost(frames, cfg.outputMtu)
    ensures var p := Reached(frames, Flatten(packets)).value;
      && Run(cfg, s, Events(packets)).1 == frames[..p.done]
      && (p.pos == 0 ==> Run(cfg, s, Events(packets)).0.used == [])
  {
    InOrderFollows(cfg, s, packets, frames);
    DeliveredOpen(cfg, s, Events(packets), frames, Reached(frames, Flatten(packets)).value, 1);
    ReachedInside(frames, Flatten(packets));
  }

  lemma {:induction false} ReachedPrefix(frames: seq<bytes>, before: seq<Chunk>, cs: seq<Chunk>, max: nat)
    requires Reached(frames, before + cs).Some? && Few(frames, before + cs, max)
    ensures Reached(frames, before).Some? && Few(frames, before, max)
  {
    if cs == [] {
      assert before + cs == before;
    } else {
      assert (before + cs)[..|before + cs| - 1] == before + cs[..|cs| - 1];
      ReachedPrefix(frames, before, cs[..|cs| - 1], max);
    }
  }

  lemma {:induction false} InOrderFollows(cfg: Config, s: State, packets: seq<seq<Chunk>>, frames: seq<bytes>)
    requires cfg.Ok() && Inv(cfg, s) && s.used == []
    requires forall i :: 0 <= i < |packets| ==> packets[i] != []
    requires Reached(frames, Flatten(packets)).Some? && Few(frames, Flatten(packets), cfg.numChunks)
    requires AtMost(frames, cfg.outputMtu)
    ensures Delivered(cfg, s, Events(packets), frames, Reached(frames, Flatten(packets)).value, 1)
  {
    if packets == [] {
      DeliveredClose(cfg, s, [], frames, Progress(0, 0, 0), 1);
    } else {
      var init, cs := packets[..|packets| - 1], packets[|packets| - 1];
      ReachedPrefix(frames, Flatten(init), cs, cfg.numChunks);
      InOrderFollows(cfg, s, init, frames);
      var p := Reached(frames, Flatten(packets)).value;
      DeliverPacket(cfg, s, Events(init), frames, Flatten(init), cs, p);
      DeliverTick(cfg, s, Events(init) + Arrivals(cs), frames, p);
    }
  }
}
