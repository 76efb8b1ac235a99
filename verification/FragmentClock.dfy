/**
 The assembler's packet clock: a 32-bit counter that, when it is about to overflow, is brought
 back together with the times of all frames (`reduce_times` and the end of `process_input`).
 */
module FragmentClock {
  import opened Bytes
  import opened Common
  import opened Fragment

  /** The frames that have not timed out, in order. */
  function Survivors(cfg: Config, now: nat, used: seq<Frame>): seq<Frame> {
    if used == [] then []
    else
      var init, f := used[..|used| - 1], used[|used| - 1];
      Survivors(cfg, now, init) + (if TimedOut(cfg, now, f) then [] else [f])
  }

  function MinTime(used: seq<Frame>): nat
    requires used != []
  {
    var init, f := used[..|used| - 1], used[|used| - 1];
    if init == [] then f.time
    else
      var m := MinTime(init);
      if f.time < m then f.time else m
  }

  lemma {:induction false} MinTimeIsMin(used: seq<Frame>)
    requires used != []
    ensures exists i :: 0 <= i < |used| && used[i].time == MinTime(used)
    ensures CanShift(used, -(MinTime(used) as int))
  {
    if |used| > 1 {
      var init := used[..|used| - 1];
      MinTimeIsMin(init);
      var i :| 0 <= i < |init| && init[i].time == MinTime(init);
      assert used[i] == init[i];
      forall k | 0 <= k < |used| ensures used[k].time >= MinTime(used) {
        assert k < |init| ==> used[k] == init[k];
      }
      assert used[if MinTime(used) == MinTime(init) then i else |used| - 1].time == MinTime(used);
    } else {
      assert used[0].time == MinTime(used);
    }
  }

  ghost predicate CanShift(used: seq<Frame>, d: int) {
    forall i :: 0 <= i < |used| ==> used[i].time + d >= 0
  }

  /** The same frames on a clock that is d ahead. */
  ghost function LaterFrames(used: seq<Frame>, d: int): (r: seq<Frame>)
    requires CanShift(used, d)
    ensures |r| == |used|
    ensures forall i :: 0 <= i < |used| ==> r[i] == used[i].(time := used[i].time + d)
  {
    seq(|used|, i requires 0 <= i < |used| => used[i].(time := used[i].time + d))
  }

  ghost function Later(s: State, d: int): State
    requires s.time + d >= 0 && CanShift(s.used, d)
  {
    State(s.time + d, LaterFrames(s.used, d))
  }

  /** The same frames on a clock set back to the time of the oldest. */
  ghost function Rebased(s: State): State
    requires forall f <- s.used :: f.time <= s.time
  {
    if s.used == [] then State(0, [])
    else
      MinTimeIsMin(s.used);
      assert s.used[0] in s.used;
      Later(s, -(MinTime(s.used) as int))
  }

  /** reduce_times */
  ghost function ReduceTimes(cfg: Config, s: State): State
    requires forall f <- s.used :: f.time <= s.time
  {
    SurvivorsMembers(cfg, s.time, s.used);
    Rebased(State(s.time, Survivors(cfg, s.time, s.used)))
  }

  /** The end of an input packet. */
  ghost function Tick(cfg: Config, s: State): State
    requires forall f <- s.used :: f.time <= s.time
  {
    if s.time == FPA_MAX_TIME then
      var r := ReduceTimes(cfg, s);
      if r.used != [] then r.(time := r.time + 1) else r
    else s.(time := s.time + 1)
  }

  lemma {:induction false} SurvivorsMembers(cfg: Config, now: nat, used: seq<Frame>)
    ensures forall f :: f in Survivors(cfg, now, used) ==> f in used && !TimedOut(cfg, now, f)
    ensures forall f :: f in used && !TimedOut(cfg, now, f) ==> f in Survivors(cfg, now, used)
    ensures |Survivors(cfg, now, used)| <= |used|
  {
    if used != [] {
      SurvivorsMembers(cfg, now, used[..|used| - 1]);
      assert used == used[..|used| - 1] + [used[|used| - 1]];
    }
  }

  lemma {:induction false} SurvivorsUnique(cfg: Config, now: nat, used: seq<Frame>)
    requires UniqueIds(used)
    ensures UniqueIds(Survivors(cfg, now, used))
  {
    if used != [] {
      var init := used[..|used| - 1];
      SurvivorsUnique(cfg, now, init);
      SurvivorsMembers(cfg, now, init);
      forall f <- Survivors(cfg, now, init) ensures f.id != used[|used| - 1].id {
        var i :| 0 <= i < |init| && init[i] == f;
      }
    }
  }

  /** r holds the frames `kept`, in order, each as old as it was before. */
  ghost predicate SameAges(r: State, now: nat, kept: seq<Frame>) {
    && |r.used| == |kept|
    && forall i :: 0 <= i < |kept| ==>
      r.used[i].(time := 0) == kept[i].(time := 0) && r.time - r.used[i].time == now - kept[i].time
  }

  /**
   reduce_times takes out exactly the frames that are older than the number of slots, keeps the age of every other
   one, and at the end of the clock's range brings the clock below it whenever a frame is left.
   */
  lemma {:induction false} ReduceTimesExact(cfg: Config, s: State)
    requires cfg.Ok() && Inv(cfg, s)
    ensures var kept := Survivors(cfg, s.time, s.used);
      && (forall f :: f in s.used && s.time - f.time <= cfg.numFrames ==> f in kept)
      && (forall f :: f in kept ==> f in s.used && s.time - f.time <= cfg.numFrames)
      && SameAges(ReduceTimes(cfg, s), s.time, kept)
    ensures var r := ReduceTimes(cfg, s); if r.used == [] then r.time == 0 else r.time <= s.time
    ensures var r := ReduceTimes(cfg, s); s.time == FPA_MAX_TIME ==> r.time < FPA_MAX_TIME
  {
    var kept := Survivors(cfg, s.time, s.used);
    SurvivorsMembers(cfg, s.time, s.used);
    if kept != [] {
      MinTimeIsMin(kept);
      var i :| 0 <= i < |kept| && kept[i].time == MinTime(kept);
      assert kept[i] in kept;
    }
  }

  /** The frames that are left stay in order. */
  lemma {:induction false} SurvivorsOrder(cfg: Config, now: nat, used: seq<Frame>, i: nat, j: nat) returns (a: nat, b: nat)
    requires i <= j < |Survivors(cfg, now, used)|
    ensures a <= b < |used| && used[a] == Survivors(cfg, now, used)[i] && used[b] == Survivors(cfg, now, used)[j]
    ensures i < j ==> a < b
  {
    var init := used[..|used| - 1];
    if j < |Survivors(cfg, now, init)| {
      a, b := SurvivorsOrder(cfg, now, init, i, j);
    } else {
      b := |used| - 1;
      if i == j {
        a := b;
      } else {
        var at := b;
        a, at := SurvivorsOrder(cfg, now, init, i, i);
      }
    }
  }

  /**
   The end of a packet: the clock goes on by one and nothing else happens, except at the end of its range, where the
   frames that are too old go, the others grow older by one, and the clock starts again, from 0 if no frame is left.
   */
  lemma {:induction false} TickExact(cfg: Config, s: State)
    requires cfg.Ok() && Inv(cfg, s)
    ensures var r := Tick(cfg, s);
      if s.time != 0xFFFF_FFFF then r.time == s.time + 1 && r.used == s.used
      else if r.used == [] then r.time == 0 && forall f <- s.used :: s.time - f.time > cfg.numFrames
      else OnNewClock(r.used, r.time, Survivors(cfg, s.time, s.used), s.time + 1)
  {
    if s.time == FPA_MAX_TIME {
      var kept := Survivors(cfg, s.time, s.used);
      SurvivorsMembers(cfg, s.time, s.used);
      if kept != [] {
        RebasedExact(s.time, kept, Rebased(State(s.time, kept)));
      }
    }
  }

  /** The same frames on two clocks, each as old on one as on the other; on the new one the oldest stands at 0. */
  ghost predicate OnNewClock(used: seq<Frame>, now: nat, was: seq<Frame>, before: nat) {
    && |used| == |was| && (exists i :: 0 <= i < |used| && used[i].time == 0)
    && forall i :: 0 <= i < |used| ==>
      used[i] == was[i].(time := used[i].time) && now - used[i].time == before - was[i].time
  }

  lemma {:induction false} RebasedExact(now: nat, kept: seq<Frame>, r: State)
    requires kept != [] && (forall f <- kept :: f.time <= now) && r == Rebased(State(now, kept))
    ensures r.used != [] && OnNewClock(r.used, r.time + 1, kept, now + 1)
  {
    MinTimeIsMin(kept);
    var i :| 0 <= i < |kept| && kept[i].time == MinTime(kept);
    assert r.used[i].time == 0;
  }

  lemma {:induction false} SurvivorsKeep(cfg: Config, s: State)
    requires Inv(cfg, s)
    ensures Inv(cfg, State(s.time, Survivors(cfg, s.time, s.used)))
  {
    SurvivorsMembers(cfg, s.time, s.used);
    SurvivorsUnique(cfg, s.time, s.used);
  }

  lemma {:induction false} LaterKeeps(cfg: Config, s: State, d: int, r: State)
    requires Inv(cfg, s) && s.time + d >= 0 && CanShift(s.used, d) && r == Later(s, d)
    ensures Inv(cfg, r)
  {
    forall i | 0 <= i < |r.used| ensures GoodFrame(cfg, r.used[i]) && r.used[i].time <= s.time + d {
      assert s.used[i] in s.used;
      assert GoodFrame(cfg, s.used[i]);
    }
  }

  lemma {:induction false} RebasedKeeps(cfg: Config, s: State, r: State)
    requires Inv(cfg, s) && r == Rebased(s)
    ensures Inv(cfg, r)
  {
    if s.used != [] {
      MinTimeIsMin(s.used);
      assert s.used[0] in s.used;
      LaterKeeps(cfg, s, -(MinTime(s.used) as int), r);
    }
  }

  lemma {:induction false} ReduceTimesKeeps(cfg: Config, s: State, r: State)
    requires Inv(cfg, s) && r == ReduceTimes(cfg, s)
    ensures Inv(cfg, r)
  {
    SurvivorsKeep(cfg, s);
    RebasedKeeps(cfg, State(s.time, Survivors(cfg, s.time, s.used)), r);
  }

  /** The clock stays a 32-bit number and the invariant survives the end of a packet. */
  lemma {:induction false} TickKeeps(cfg: Config, s: State)
    requires cfg.Ok() && Inv(cfg, s) && s.time <= FPA_MAX_TIME
    ensures Inv(cfg, Tick(cfg, s)) && Tick(cfg, s).time <= FPA_MAX_TIME
  {
    ReduceTimesExact(cfg, s);
    ReduceTimesKeeps(cfg, s, ReduceTimes(cfg, s));
  }

  // ---------- the same assembler with a clock that never wraps ----------

  ghost function UnboundedTick(cfg: Config, u: State, purge: bool): State {
    State(u.time + 1, if purge then Survivors(cfg, u.time, u.used) else u.used)
  }

  lemma {:induction false} LaterLookup(used: seq<Frame>, d: nat, id: nat)
    ensures Lookup(LaterFrames(used, d), id) == Lookup(used, id)
  {
    if used != [] && used[0].id != id {
      LaterLookup(used[1..], d, id);
      assert LaterFrames(used, d)[1..] == LaterFrames(used[1..], d);
    }
  }

  lemma {:induction false} LaterFree(s: State, j: nat, d: nat)
    requires j < |s.used|
    ensures FreeFrame(Later(s, d), j) == Later(FreeFrame(s, j), d)
  {
    assert Without(LaterFrames(s.used, d), j) == LaterFrames(Without(s.used, j), d);
  }

  lemma {:induction false} LaterAllocate(cfg: Config, s: State, id: nat, d: nat)
    requires cfg.Ok() && |s.used| <= cfg.numFrames
    ensures Allocate(cfg, Later(s, d), id) == Later(Allocate(cfg, s, id), d)
  {
    var s1 := s;
    if |s.used| == cfg.numFrames {
      LaterFree(s, 0, d);
      s1 := FreeFrame(s, 0);
    }
    var f := Frame(id, s.time, [], -1, 0);
    assert LaterFrames(s1.used, d) + [f.(time := f.time + d)] == LaterFrames(s1.used + [f], d);
  }

  lemma {:induction false} LaterFrameFor(cfg: Config, s: State, id: nat, d: nat)
    requires cfg.Ok() && |s.used| <= cfg.numFrames
    ensures FrameFor(cfg, Later(s, d), id) == (Later(FrameFor(cfg, s, id).0, d), FrameFor(cfg, s, id).1)
  {
    LaterLookup(s.used, d, id);
    LaterAllocate(cfg, s, id, d);
    var j := Lookup(s.used, id);
    if j < |s.used| {
      LaterFree(s, j, d);
      LaterAllocate(cfg, FreeFrame(s, j), id, d);
    }
  }

  lemma {:induction false} LaterPlace(cfg: Config, s: State, j: nat, c: Piece, last: bool, d: nat)
    requires j < |s.used|
    ensures Place(cfg, Later(s, d), j, c, last) == (Later(Place(cfg, s, j, c, last).0, d), Place(cfg, s, j, c, last).1)
  {
    LaterFree(s, j, d);
    var f' := Added(s.used[j], c, last, s.time);
    assert LaterFrames(s.used, d)[j := f'.(time := f'.time + d)] == LaterFrames(s.used[j := f'], d);
  }

  /** Setting the clock and all frame times ahead does not change what happens to a chunk. */
  lemma {:induction false} LaterProcessChunk(cfg: Config, s: State, c: Chunk, d: nat)
    requires cfg.Ok() && |s.used| <= cfg.numFrames
    ensures ProcessChunk(cfg, Later(s, d), c) == (Later(ProcessChunk(cfg, s, c).0, d), ProcessChunk(cfg, s, c).1)
  {
    if InBounds(cfg, c) {
      LaterFrameFor(cfg, s, c.id, d);
      var r := FrameFor(cfg, s, c.id);
      LaterPlace(cfg, r.0, r.1, Piece(c.start, c.data), c.last, d);
    }
  }

  lemma {:induction false} LaterSurvivors(cfg: Config, now: nat, used: seq<Frame>, d: nat)
    ensures Survivors(cfg, now + d, LaterFrames(used, d)) == LaterFrames(Survivors(cfg, now, used), d)
  {
    if used != [] {
      var init := used[..|used| - 1];
      LaterSurvivors(cfg, now, init, d);
      assert LaterFrames(used, d)[..|used| - 1] == LaterFrames(init, d);
    }
  }

  /** After a tick the unbounded clock is again a fixed amount ahead. */
  lemma {:induction false} LaterTick(cfg: Config, s: State, d: nat) returns (lead: nat)
    requires cfg.Ok() && Inv(cfg, s)
    ensures UnboundedTick(cfg, Later(s, d), s.time == FPA_MAX_TIME) == Later(Tick(cfg, s), lead)
  {
    lead := d;
    if s.time == FPA_MAX_TIME {
      LaterSurvivors(cfg, s.time, s.used, d);
      SurvivorsMembers(cfg, s.time, s.used);
      lead := LaterRebased(State(s.time, Survivors(cfg, s.time, s.used)), d);
    }
  }

  lemma {:induction false} LaterRebased(s: State, d: nat) returns (lead: nat)
    requires forall f <- s.used :: f.time <= s.time
    ensures LaterFrames(s.used, d) == LaterFrames(Rebased(s).used, lead)
    ensures s.time + d + 1 == lead + (if s.used == [] then 0 else Rebased(s).time + 1)
  {
    if s.used == [] {
      lead := s.time + d + 1;
    } else {
      lead := d + MinTime(s.used);
      MinTimeIsMin(s.used);
      LaterTwice(s.used, -(MinTime(s.used) as int), lead);
    }
  }

  lemma {:induction false} LaterTwice(used: seq<Frame>, d: int, e: nat)
    requires CanShift(used, d)
    ensures CanShift(LaterFrames(used, d), e) && CanShift(used, d + e)
    ensures LaterFrames(LaterFrames(used, d), e) == LaterFrames(used, d + e)
  {
    var a, b := LaterFrames(LaterFrames(used, d), e), LaterFrames(used, d + e);
    forall i | 0 <= i < |used| ensures a[i] == b[i] {
    }
  }

  datatype Event = Arrives(chunk: Chunk) | PacketEnds

  function Sent(o: Option<bytes>): seq<bytes> {
    if o.Some? then [o.value] else []
  }

  /** A run: the state at its end and the frames it has sent. */
  ghost function Run(cfg: Config, s: State, events: seq<Event>): (r: (State, seq<bytes>))
    requires cfg.Ok() && Inv(cfg, s)
    ensures Inv(cfg, r.0)
    decreases |events|
  {
    if events == [] then (s, [])
    else match events[0]
      case Arrives(c) =>
        ProcessChunkKeeps(cfg, s, c);
        var p := ProcessChunk(cfg, s, c);
        var r := Run(cfg, p.0, events[1..]);
        (r.0, Sent(p.1) + r.1)
      case PacketEnds =>
        TickInv(cfg, s);
        Run(cfg, Tick(cfg, s), events[1..])
  }

  lemma {:induction false} TickInv(cfg: Config, s: State)
    requires cfg.Ok() && Inv(cfg, s)
    ensures Inv(cfg, Tick(cfg, s))
  {
    ReduceTimesKeeps(cfg, s, ReduceTimes(cfg, s));
  }

  /** At which events of a run the clock is at its maximum when a packet ends. */
  ghost function PurgePoints(cfg: Config, s: State, events: seq<Event>): (r: seq<bool>)
    requires cfg.Ok() && Inv(cfg, s)
    ensures |r| == |events|
    decreases |events|
  {
    if events == [] then []
    else match events[0]
      case Arrives(c) =>
        ProcessChunkKeeps(cfg, s, c);
        [false] + PurgePoints(cfg, ProcessChunk(cfg, s, c).0, events[1..])
      case PacketEnds =>
        TickInv(cfg, s);
        [s.time == FPA_MAX_TIME] + PurgePoints(cfg, Tick(cfg, s), events[1..])
  }

  /** The frames sent by an assembler whose clock only ever counts up. */
  ghost function UnboundedRun(cfg: Config, u: State, events: seq<Event>, purges: seq<bool>): seq<bytes>
    requires cfg.Ok() && |u.used| <= cfg.numFrames && |purges| == |events|
    decreases |events|
  {
    if events == [] then []
    else match events[0]
      case Arrives(c) =>
        var p := ProcessChunk(cfg, u, c);
        ProcessChunkRoom(cfg, u, c);
        Sent(p.1) + UnboundedRun(cfg, p.0, events[1..], purges[1..])
      case PacketEnds =>
        SurvivorsMembers(cfg, u.time, u.used);
        UnboundedRun(cfg, UnboundedTick(cfg, u, purges[0]), events[1..], purges[1..])
  }

  lemma {:induction false} ProcessChunkRoom(cfg: Config, s: State, c: Chunk)
    requires cfg.Ok() && |s.used| <= cfg.numFrames
    ensures |ProcessChunk(cfg, s, c).0.used| <= cfg.numFrames
  {
  }

  /** Whatever arrives, the 32-bit clock sends what a clock without bounds that purges at the same points sends. */
  lemma {:induction false} ClockRefinesUnbounded(cfg: Config, s: State, events: seq<Event>, d: nat)
    requires cfg.Ok() && Inv(cfg, s) && s.time <= FPA_MAX_TIME
    ensures Run(cfg, s, events).1 == UnboundedRun(cfg, Later(s, d), events, PurgePoints(cfg, s, events))
    ensures Run(cfg, s, events).0.time <= FPA_MAX_TIME
    decreases |events|
  {
    if events != [] {
      var purges := PurgePoints(cfg, s, events);
      match events[0]
      case Arrives(c) =>
        ProcessChunkKeeps(cfg, s, c);
        LaterProcessChunk(cfg, s, c, d);
        var s' := ProcessChunk(cfg, s, c).0;
        assert purges[1..] == PurgePoints(cfg, s', events[1..]);
        ClockRefinesUnbounded(cfg, s', events[1..], d);
      case PacketEnds =>
        TickKeeps(cfg, s);
        var lead := LaterTick(cfg, s, d);
        assert purges[1..] == PurgePoints(cfg, Tick(cfg, s), events[1..]);
        ClockRefinesUnbounded(cfg, Tick(cfg, s), events[1..], lead);
    }
  }
}
