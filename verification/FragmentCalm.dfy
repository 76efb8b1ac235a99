/** When the traffic around a frame leaves it alone: conditions on what arrives, not on what the assembler does. */
module FragmentCalm {
  import opened Bytes
  import opened Common
  import opened Fragment
  import opened FragmentClock
  import opened FragmentShuffle

  /**
   While some but not all of the `total` chunks of the frame have arrived: fewer than n other ids turn up, `others`
   counted in, and at most n packets end between one chunk of the frame and the next, `age` counted in.
   */
  ghost predicate Calm(events: seq<Event>, id: nat, others: set<nat>, age: nat, n: nat, fed: nat, total: nat)
    decreases |events|
  {
    events != [] ==>
      var gathering := 0 < fed < total;
      match events[0]
      case Arrives(c) =>
        if c.id == id then Calm(events[1..], id, if fed == 0 then {} else others, 0, n, fed + 1, total)
        else (gathering ==> |others + {c.id}| < n) && Calm(events[1..], id, others + {c.id}, age, n, fed, total)
      case PacketEnds =>
        (gathering ==> age + 1 <= n) && Calm(events[1..], id, others, age + 1, n, fed, total)
  }

  /** The frame is at position k, of this age, and only frames with other ids that have turned up are behind it. */
  ghost predicate HeldAt(s: State, k: nat, id: nat, others: set<nat>, age: nat) {
    && k < |s.used| && s.used[k].id == id && s.time - s.used[k].time == age
    && forall i :: k < i < |s.used| ==> s.used[i].id in others
  }

  /** Different ids from a set are no more than the set has. */
  lemma {:induction false} FewIds(used: seq<Frame>, all: set<nat>)
    requires UniqueIds(used) && forall i :: 0 <= i < |used| ==> used[i].id in all
    ensures |used| <= |all|
  {
    if used != [] {
      var last := used[|used| - 1].id;
      FewIds(used[..|used| - 1], all - {last});
    }
  }

  lemma {:induction false} HeldFree(s: State, j: nat, k: nat, id: nat, others: set<nat>, age: nat) returns (k': nat)
    requires HeldAt(s, k, id, others, age) && j < |s.used| && j != k
    ensures HeldAt(FreeFrame(s, j), k', id, others, age)
  {
    k' := if j < k then k - 1 else k;
  }

  lemma {:induction false} HeldAllocate(cfg: Config, s: State, new': nat, k: nat, id: nat, others: set<nat>, age: nat)
    returns (k': nat)
    requires cfg.Ok() && |s.used| <= cfg.numFrames && UniqueIds(s.used)
    requires HeldAt(s, k, id, others, age) && |others + {new'}| < cfg.numFrames
    requires forall i :: 0 <= i < |s.used| ==> s.used[i].id != new'
    ensures HeldAt(Allocate(cfg, s, new'), k', id, others + {new'}, age)
  {
    k' := k;
    if |s.used| == cfg.numFrames {
      if k == 0 {
        assert |others + {new'} - {new'}| == |others + {new'}| - 1;
        FewIds(s.used[1..], others + {new'} - {new'});
      }
      k' := HeldFree(s, 0, k, id, others, age);
    }
  }

  /** A chunk of another frame. */
  lemma {:induction false} HeldFrameFor(cfg: Config, s: State, c: nat, k: nat, id: nat, others: set<nat>, age: nat)
    returns (k': nat)
    requires cfg.Ok() && Inv(cfg, s) && c != id
    requires HeldAt(s, k, id, others, age) && |others + {c}| < cfg.numFrames
    ensures HeldAt(FrameFor(cfg, s, c).0, k', id, others + {c}, age) && k' != FrameFor(cfg, s, c).1
    ensures FrameFor(cfg, s, c).0.used[FrameFor(cfg, s, c).1].id == c
  {
    var j := Lookup(s.used, c);
    if j == |s.used| {
      k' := HeldAllocate(cfg, s, c, k, id, others, age);
    } else if TimedOut(cfg, s.time, s.used[j]) {
      FreeFrameKeeps(cfg, s, j);
      var k1 := HeldFree(s, j, k, id, others, age);
      forall i | 0 <= i < |FreeFrame(s, j).used| ensures FreeFrame(s, j).used[i].id != c {
        assert FreeFrame(s, j).used[i] in FreeFrame(s, j).used;
      }
      k' := HeldAllocate(cfg, FreeFrame(s, j), c, k1, id, others, age);
    } else {
      k' := k;
    }
  }

  lemma {:induction false} HeldPlace(cfg: Config, s: State, j: nat, c: Piece, last: bool, k: nat, id: nat,
                                     others: set<nat>, age: nat) returns (k': nat)
    requires HeldAt(s, k, id, others, age) && j < |s.used| && j != k
    ensures HeldAt(Place(cfg, s, j, c, last).0, k', id, others, age)
  {
    if Place(cfg, s, j, c, last).0 == FreeFrame(s, j) {
      k' := HeldFree(s, j, k, id, others, age);
    } else {
      k' := k;
    }
  }

  lemma {:induction false} HeldChunk(cfg: Config, s: State, c: Chunk, k: nat, id: nat, others: set<nat>, age: nat)
    returns (k': nat)
    requires cfg.Ok() && Inv(cfg, s) && c.id != id
    requires HeldAt(s, k, id, others, age) && |others + {c.id}| < cfg.numFrames
    ensures HeldAt(ProcessChunk(cfg, s, c).0, k', id, others + {c.id}, age)
  {
    k' := k;
    if InBounds(cfg, c) {
      var r := FrameFor(cfg, s, c.id);
      k' := HeldFrameFor(cfg, s, c.id, k, id, others, age);
      k' := HeldPlace(cfg, r.0, r.1, Piece(c.start, c.data), c.last, k', id, others + {c.id}, age);
    }
  }

  /** A frame that has not timed out is kept by a purge, and nothing new gets behind it. */
  lemma {:induction false} SurvivorsHeld(cfg: Config, now: nat, used: seq<Frame>, k: nat, others: set<nat>) returns (k': nat)
    requires k < |used| && !TimedOut(cfg, now, used[k]) && forall i :: k < i < |used| ==> used[i].id in others
    ensures var kept := Survivors(cfg, now, used);
      k' < |kept| && kept[k'] == used[k] && forall i :: k' < i < |kept| ==> kept[i].id in others
  {
    var init, f := used[..|used| - 1], used[|used| - 1];
    if k == |init| {
      k' := |Survivors(cfg, now, init)|;
    } else {
      k' := SurvivorsHeld(cfg, now, init, k, others);
    }
  }

  lemma {:induction false} HeldTick(cfg: Config, s: State, k: nat, id: nat, others: set<nat>, age: nat) returns (k': nat)
    requires cfg.Ok() && Inv(cfg, s) && HeldAt(s, k, id, others, age) && age <= cfg.numFrames
    ensures HeldAt(Tick(cfg, s), k', id, others, age + 1)
  {
    k' := k;
    if s.time == FPA_MAX_TIME {
      var kept := Survivors(cfg, s.time, s.used);
      k' := SurvivorsHeld(cfg, s.time, s.used, k, others);
      ReduceTimesExact(cfg, s);
      var r := ReduceTimes(cfg, s);
      forall i | 0 <= i < |kept| ensures r.used[i].id == kept[i].id && r.time - r.used[i].time == s.time - kept[i].time {
        assert r.used[i].(time := 0).id == kept[i].(time := 0).id;
      }
    }
  }

  /** A chunk of the frame itself puts it at the end of the list, or leaves it where it is, and renews it. */
  lemma {:induction false} HeldOwn(cfg: Config, s: State, c: Chunk, k: nat, id: nat, others: set<nat>, age: nat,
                                   done: seq<Chunk>, cs: seq<Chunk>, frame: bytes, s': State) returns (k': nat)
    requires cfg.Ok() && Inv(cfg, s) && c.id == id && s' == ProcessChunk(cfg, s, c).0 && Inv(cfg, s')
    requires Tracked(s, id, done, cs, frame) && Tracked(s', id, done + [c], cs, frame) && |done| + 1 < |cs|
    requires done != [] ==> HeldAt(s, k, id, others, age) && age <= cfg.numFrames
    ensures HeldAt(s', k', id, if done == [] then {} else others, 0)
  {
    assert Present(s', id);
    if done == [] {
      k' := OwnFirst(cfg, s, c, s');
    } else {
      k' := OwnLater(cfg, s, c, k, others, age, s');
    }
  }

  lemma {:induction false} FreedGone(used: seq<Frame>, j: nat, i: nat)
    requires UniqueIds(used) && j < |used| && i < |Without(used, j)|
    ensures Without(used, j)[i].id != used[j].id
  {
    assert Without(used, j)[i] == used[if i < j then i else i + 1];
  }

  /** After the frame's own chunk the frame is either where it was looked up, renewed, or gone. */
  lemma {:induction false} PlaceRenews(cfg: Config, s: State, j: nat, c: Piece, last: bool, s': State)
    requires j < |s.used| && UniqueIds(s.used) && s' == Place(cfg, s, j, c, last).0 && Present(s', s.used[j].id)
    ensures |s'.used| == |s.used| && s'.time == s.time && s'.used[j].time == s.time
    ensures forall i :: 0 <= i < |s.used| ==> s'.used[i].id == s.used[i].id
  {
    if s' == FreeFrame(s, j) {
      var i := Lookup(s'.used, s.used[j].id);
      FreedGone(s.used, j, i);
    }
  }

  lemma {:induction false} OwnFirst(cfg: Config, s: State, c: Chunk, s': State) returns (k': nat)
    requires cfg.Ok() && Inv(cfg, s) && Absent(s, c.id) && s' == ProcessChunk(cfg, s, c).0 && Present(s', c.id)
    ensures HeldAt(s', k', c.id, {}, 0)
  {
    var r := FrameFor(cfg, s, c.id);
    k' := r.1;
    FrameForKeeps(cfg, s, c.id);
    PlaceRenews(cfg, r.0, r.1, Piece(c.start, c.data), c.last, s');
  }

  lemma {:induction false} OwnLater(cfg: Config, s: State, c: Chunk, k: nat, others: set<nat>, age: nat, s': State)
    returns (k': nat)
    requires cfg.Ok() && Inv(cfg, s) && HeldAt(s, k, c.id, others, age) && age <= cfg.numFrames && InBounds(cfg, c)
    requires s' == ProcessChunk(cfg, s, c).0 && Present(s', c.id)
    ensures HeldAt(s', k', c.id, others, 0)
  {
    LookupUnique(s.used, k);
    k' := k;
    PlaceRenews(cfg, s, k, Piece(c.start, c.data), c.last, s');
  }

  /** What is calm is undisturbed. */
  lemma {:induction false} CalmUndisturbed(cfg: Config, s: State, events: seq<Event>, id: nat, cs: seq<Chunk>,
                                           frame: bytes, done: seq<Chunk>, others: set<nat>, age: nat, k: nat)
    requires cfg.Ok() && Inv(cfg, s) && CutUp(cs, id, frame, 0)
    requires |cs| <= cfg.numChunks && |frame| <= cfg.outputMtu
    requires Tracked(s, id, done, cs, frame) && SomeOf(done + Own(events, id), cs)
    requires Calm(events, id, others, age, cfg.numFrames, |done|, |cs|)
    requires 0 < |done| < |cs| ==> HeldAt(s, k, id, others, age) && age <= cfg.numFrames
    ensures Undisturbed(cfg, s, events, id, |done|, |cs|)
    decreases |events|
  {
    if events != [] {
      var s' := After(cfg, s, events[0]);
      if IsOwn(events[0], id) {
        assert done + Own(events, id) == done + [events[0].chunk] + Own(events[1..], id);
        CalmOwn(cfg, s, events[0].chunk, events[1..], id, cs, frame, done, others, age, k, s');
      } else {
        assert Own(events, id) == Own(events[1..], id);
        CalmOther(cfg, s, events[0], events[1..], id, cs, frame, done, others, age, k, s');
      }
    }
  }

  lemma {:induction false} HeldYoung(cfg: Config, s: State, k: nat, id: nat, others: set<nat>, age: nat)
    requires cfg.Ok() && Inv(cfg, s) && HeldAt(s, k, id, others, age) && age <= cfg.numFrames
    ensures Lookup(s.used, id) == k < |s.used| && !TimedOut(cfg, s.time, s.used[k])
  {
    LookupUnique(s.used, k);
  }

  lemma {:induction false} CalmOwn(cfg: Config, s: State, c: Chunk, tail: seq<Event>, id: nat, cs: seq<Chunk>,
                                   frame: bytes, done: seq<Chunk>, others: set<nat>, age: nat, k: nat, s': State)
    requires cfg.Ok() && Inv(cfg, s) && CutUp(cs, id, frame, 0) && c.id == id
    requires |cs| <= cfg.numChunks && |frame| <= cfg.outputMtu
    requires Tracked(s, id, done, cs, frame) && SomeOf(done + [c] + Own(tail, id), cs)
    requires Calm(tail, id, if done == [] then {} else others, 0, cfg.numFrames, |done| + 1, |cs|)
    requires 0 < |done| < |cs| ==> HeldAt(s, k, id, others, age) && age <= cfg.numFrames
    requires s' == After(cfg, s, Arrives(c))
    ensures 0 < |done| < |cs| && Present(s, id) ==> !TimedOut(cfg, s.time, s.used[Lookup(s.used, id)])
    ensures Undisturbed(cfg, s', tail, id, |done| + 1, |cs|)
    decreases |tail| + 1, 0
  {
    SomeOfParts(done, c, Own(tail, id), cs);
    if 0 < |done| < |cs| {
      HeldYoung(cfg, s, k, id, others, age);
    }
    OwnEvent(cfg, s, id, done, cs, frame, c, s');
    var k' := 0;
    if |done| + 1 < |cs| {
      k' := HeldOwn(cfg, s, c, k, id, others, age, done, cs, frame, s');
    }
    CalmUndisturbed(cfg, s', tail, id, cs, frame, done + [c], if done == [] then {} else others, 0, k');
  }

  lemma {:induction false} CalmOther(cfg: Config, s: State, e: Event, tail: seq<Event>, id: nat, cs: seq<Chunk>,
                                     frame: bytes, done: seq<Chunk>, others: set<nat>, age: nat, k: nat, s': State)
    requires cfg.Ok() && Inv(cfg, s) && CutUp(cs, id, frame, 0) && !IsOwn(e, id)
    requires |cs| <= cfg.numChunks && |frame| <= cfg.outputMtu
    requires Tracked(s, id, done, cs, frame) && SomeOf(done + Own(tail, id), cs)
    requires Calm([e] + tail, id, others, age, cfg.numFrames, |done|, |cs|)
    requires 0 < |done| < |cs| ==> HeldAt(s, k, id, others, age) && age <= cfg.numFrames
    requires s' == After(cfg, s, e)
    ensures 0 < |done| < |cs| ==> Present(s', id)
    ensures Undisturbed(cfg, s', tail, id, |done|, |cs|)
    decreases |tail| + 1, 0
  {
    assert ([e] + tail)[0] == e && ([e] + tail)[1..] == tail;
    var k' := 0;
    var others' := if e.Arrives? then others + {e.chunk.id} else others;
    var age' := if e.Arrives? then age else age + 1;
    if 0 < |done| < |cs| {
      if e.Arrives? {
        k' := HeldChunk(cfg, s, e.chunk, k, id, others, age);
      } else {
        k' := HeldTick(cfg, s, k, id, others, age);
      }
      LookupUnique(s'.used, k');
    }
    OtherTracked(cfg, s, e, id, done, cs, frame, s');
    CalmUndisturbed(cfg, s', tail, id, cs, frame, done, others', age', k');
  }

  /**
   The chunks of a frame in any order, with fewer other ids between them than there are slots, and no longer a wait
   for the next than the slots allow: one delivery, of that frame, at its last chunk.
   */
  lemma {:induction false} CalmDelivers(cfg: Config, s: State, events: seq<Event>, id: nat, cs: seq<Chunk>, frame: bytes)
    requires cfg.Ok() && Inv(cfg, s) && CutUp(cs, id, frame, 0)
    requires |cs| <= cfg.numChunks && |frame| <= cfg.outputMtu
    requires multiset(Own(events, id)) == multiset(cs) && Absent(s, id)
    requires Calm(events, id, {}, 0, cfg.numFrames, 0, |cs|)
    ensures var o := Outcomes(cfg, s, events, id);
      |o| == |cs| && o[|cs| - 1] == Some(frame) && forall i :: 0 <= i < |cs| - 1 ==> o[i] == None
  {
    PartsDistinct(cs, id, frame);
    PermutationParts(cs, Own(events, id));
    assert [] + Own(events, id) == Own(events, id);
    CalmUndisturbed(cfg, s, events, id, cs, frame, [], {}, 0, 0);
    PermutationDelivers(cfg, s, events, id, cs, frame);
  }

  lemma {:induction false} OwnCalm(events: seq<Event>, id: nat, others: set<nat>, n: nat, fed: nat, total: nat)
    requires forall e <- events :: IsOwn(e, id)
    ensures Calm(events, id, others, 0, n, fed, total)
    decreases |events|
  {
    if events != [] {
      assert events[0] in events && forall e <- events[1..] :: e in events;
      OwnCalm(events[1..], id, if fed == 0 then {} else others, n, fed + 1, total);
    }
  }

  lemma {:induction false} OwnArrivals(perm: seq<Chunk>, id: nat)
    requires forall c <- perm :: c.id == id
    ensures Own(seq(|perm|, i requires 0 <= i < |perm| => Arrives(perm[i])), id) == perm
    decreases |perm|
  {
    var events := seq(|perm|, i requires 0 <= i < |perm| => Arrives(perm[i]));
    if perm != [] {
      var rest := seq(|perm| - 1, i requires 0 <= i < |perm| - 1 => Arrives(perm[1..][i]));
      assert events[1..] == rest;
      assert forall c <- perm[1..] :: c in perm;
      assert perm[0] in perm;
      OwnArrivals(perm[1..], id);
    }
  }

  /** Nothing but the chunks of the frame, in any order. */
  lemma {:induction false} AloneDelivers(cfg: Config, s: State, perm: seq<Chunk>, id: nat, cs: seq<Chunk>, frame: bytes)
    requires cfg.Ok() && Inv(cfg, s) && CutUp(cs, id, frame, 0) && Absent(s, id)
    requires |cs| <= cfg.numChunks && |frame| <= cfg.outputMtu && multiset(perm) == multiset(cs)
    ensures var o := Outcomes(cfg, s, seq(|perm|, i requires 0 <= i < |perm| => Arrives(perm[i])), id);
      |o| == |cs| && o[|cs| - 1] == Some(frame) && forall i :: 0 <= i < |cs| - 1 ==> o[i] == None
  {
    var events := seq(|perm|, i requires 0 <= i < |perm| => Arrives(perm[i]));
    CutUpParts(cs, id, frame, 0);
    forall c | c in perm ensures c.id == id {
      assert c in multiset(perm) && c in multiset(cs);
    }
    OwnArrivals(perm, id);
    OwnCalm(events, id, {}, cfg.numFrames, 0, |cs|);
    CalmDelivers(cfg, s, events, id, cs, frame);
  }
}
