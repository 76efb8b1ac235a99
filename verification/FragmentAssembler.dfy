/** FragmentProtoAssembler.c: the assembler as it works in place on its frame entries. */
module FragmentAssembler {
  import opened Bytes
  import opened Common
  import opened Fragment
  import opened FragmentClock
  import opened FragmentStream

  /** struct FragmentProtoAssembler_chunk */
  datatype Extent = Extent(start: nat, len: nat)

  /** struct FragmentProtoAssembler_frame */
  class Entry {
    const chunks: array<Extent>
    const buffer: array<byte>
    var id: nat
    var time: nat
    var numChunks: nat
    var sum: nat
    var length: int
    var lengthSoFar: nat

    constructor (maxChunks: nat, outputMtu: nat)
      ensures fresh(chunks) && fresh(buffer) && chunks.Length == maxChunks && buffer.Length == outputMtu
    {
      chunks := new Extent[maxChunks](_ => Extent(0, 0));
      buffer := new byte[outputMtu](_ => 0);
    }
  }

  /** The first `n` chunk entries and their bytes in the buffer are these pieces. */
  ghost predicate Holds(chunks: seq<Extent>, buffer: bytes, ps: seq<Piece>) {
    && |ps| <= |chunks|
    && forall i :: 0 <= i < |ps| ==>
      chunks[i] == Extent(ps[i].start, |ps[i].data|) && ps[i].End() <= |buffer|
      && buffer[ps[i].start..ps[i].End()] == ps[i].data
  }

  /** The entry represents the frame f. */
  ghost predicate EntryIs(e: Entry, f: Frame)
    reads e, e.chunks, e.buffer
  {
    && e.id == f.id && e.time == f.time && e.length == f.length && e.lengthSoFar == f.far
    && e.numChunks == |f.pieces| && e.sum == Total(f.pieces)
    && Holds(e.chunks[..], e.buffer[..], f.pieces)
  }

  /** Every entry has its own arrays, of the right sizes. */
  ghost predicate OwnArrays(entries: seq<Entry>, cfg: Config) {
    && (forall i :: 0 <= i < |entries| ==>
      entries[i].chunks.Length == cfg.numChunks && entries[i].buffer.Length == cfg.outputMtu)
    && (forall i, j :: 0 <= i < j < |entries| ==>
      entries[i] != entries[j] && entries[i].chunks != entries[j].chunks && entries[i].buffer != entries[j].buffer)
  }

  /** The free and the used list together hold every entry once. */
  ghost predicate Partition(free: seq<Entry>, used: seq<Entry>, entries: seq<Entry>) {
    && NoDuplicates(free) && NoDuplicates(used) && |free| + |used| == |entries|
    && (forall i :: 0 <= i < |free| ==> free[i] in entries && free[i] !in used)
    && (forall i :: 0 <= i < |used| ==> used[i] in entries)
  }

  lemma {:induction false} FreeKeepsPartition(free: seq<Entry>, used: seq<Entry>, entries: seq<Entry>, j: nat)
    requires Partition(free, used, entries) && j < |used|
    ensures Partition(free + [used[j]], Without(used, j), entries)
  {
    var used' := Without(used, j);
    forall i | 0 <= i < |used'| ensures used'[i] in used && used'[i] != used[j] {
      assert used'[i] == used[if i < j then i else i + 1];
    }
    forall i, k | 0 <= i < k < |used'| ensures used'[i] != used'[k] {
      assert used'[i] == used[if i < j then i else i + 1] && used'[k] == used[if k < j then k else k + 1];
    }
  }

  ghost predicate HasId(frames: seq<Frame>, id: nat) {
    exists i :: 0 <= i < |frames| && frames[i].id == id
  }

  /** The used tree finds exactly the used entries, by id. */
  ghost predicate Indexed(tree: map<nat, Entry>, used: seq<Entry>, frames: seq<Frame>) {
    && |used| == |frames|
    && (forall i :: 0 <= i < |used| ==> frames[i].id in tree && tree[frames[i].id] == used[i])
    && (forall k <- tree :: HasId(frames, k))
  }

  lemma {:induction false} FreeKeepsIndexed(tree: map<nat, Entry>, used: seq<Entry>, frames: seq<Frame>, j: nat)
    requires Indexed(tree, used, frames) && j < |used| && UniqueIds(frames)
    ensures Indexed(tree - {frames[j].id}, Without(used, j), Without(frames, j))
  {
    var tree', used', frames' := tree - {frames[j].id}, Without(used, j), Without(frames, j);
    forall k <- tree' ensures HasId(frames', k) {
      assert HasId(frames, k);
      var i :| 0 <= i < |used| && frames[i].id == k;
      assert frames'[if i < j then i else i - 1].id == k;
    }
  }

  lemma {:induction false} FreeKeepsUnique(frames: seq<Frame>, j: nat)
    requires UniqueIds(frames) && j < |frames|
    ensures UniqueIds(Without(frames, j))
  {
  }

  /** How the lists, the tree and the entries fit together, for these used frames. */
  ghost predicate Filed(free: seq<Entry>, used: seq<Entry>, tree: map<nat, Entry>, frames: seq<Frame>,
                        entries: seq<Entry>) {
    Partition(free, used, entries) && UniqueIds(frames) && Indexed(tree, used, frames)
  }

  /** Filed, wrapped so that the methods carry it along by name; FiledOpen and FiledClose get through. */
  ghost predicate Lists(free: seq<Entry>, used: seq<Entry>, tree: map<nat, Entry>, frames: seq<Frame>,
                        entries: seq<Entry>, k: nat := 3) {
    if k == 0 then Filed(free, used, tree, frames, entries) else Lists(free, used, tree, frames, entries, k - 1)
  }

  lemma {:induction false} FiledOpen(free: seq<Entry>, used: seq<Entry>, tree: map<nat, Entry>, frames: seq<Frame>,
                                     entries: seq<Entry>, k: nat := 3)
    requires Lists(free, used, tree, frames, entries, k)
    ensures Filed(free, used, tree, frames, entries)
  {
    if k > 0 { FiledOpen(free, used, tree, frames, entries, k - 1); }
  }

  lemma {:induction false} FiledClose(free: seq<Entry>, used: seq<Entry>, tree: map<nat, Entry>, frames: seq<Frame>,
                                      entries: seq<Entry>, k: nat := 3)
    requires Filed(free, used, tree, frames, entries)
    ensures Lists(free, used, tree, frames, entries, k)
  {
    if k > 0 { FiledClose(free, used, tree, frames, entries, k - 1); }
  }

  lemma {:induction false} FreeKeepsLists(free: seq<Entry>, used: seq<Entry>, tree: map<nat, Entry>,
                                          frames: seq<Frame>, entries: seq<Entry>, j: nat)
    requires Lists(free, used, tree, frames, entries) && j < |used| == |frames|
    ensures Lists(free + [used[j]], Without(used, j), tree - {frames[j].id}, Without(frames, j), entries)
    ensures Minus(used, used[j]) == Without(used, j)
  {
    FiledOpen(free, used, tree, frames, entries);
    MinusAt(used, j);
    FreeKeepsPartition(free, used, entries, j);
    FreeKeepsIndexed(tree, used, frames, j);
    FreeKeepsUnique(frames, j);
    FiledClose(free + [used[j]], Without(used, j), tree - {frames[j].id}, Without(frames, j), entries);
  }

  ghost predicate Owned(used: seq<Entry>, repr: set<object>) {
    forall i :: 0 <= i < |used| ==> used[i] in repr && used[i].chunks in repr && used[i].buffer in repr
  }

  /** The entries represent the frames, one by one; wrapped like Lists. */
  ghost predicate Represents(used: seq<Entry>, frames: seq<Frame>, repr: set<object>, k: nat := 3)
    reads repr
  {
    if k == 0 then
      |used| == |frames| && Owned(used, repr) && forall i :: 0 <= i < |used| ==> EntryIs(used[i], frames[i])
    else Represents(used, frames, repr, k - 1)
  }

  lemma {:induction false} RepresentsOpen(used: seq<Entry>, frames: seq<Frame>, repr: set<object>, k: nat := 3)
    requires Represents(used, frames, repr, k)
    ensures |used| == |frames| && Owned(used, repr) && forall i :: 0 <= i < |used| ==> EntryIs(used[i], frames[i])
  {
    if k > 0 { RepresentsOpen(used, frames, repr, k - 1); }
  }

  lemma {:induction false} RepresentsClose(used: seq<Entry>, frames: seq<Frame>, repr: set<object>, k: nat := 3)
    requires |used| == |frames| && Owned(used, repr) && forall i :: 0 <= i < |used| ==> EntryIs(used[i], frames[i])
    ensures Represents(used, frames, repr, k)
  {
    if k > 0 { RepresentsClose(used, frames, repr, k - 1); }
  }

  lemma {:induction false} EntryAt(used: seq<Entry>, frames: seq<Frame>, repr: set<object>, j: nat)
    requires Represents(used, frames, repr) && j < |used|
    ensures j < |frames| && used[j] in repr && used[j].chunks in repr && used[j].buffer in repr
    ensures EntryIs(used[j], frames[j])
  {
    RepresentsOpen(used, frames, repr);
  }

  lemma {:induction false} AllocateKeepsLists(free: seq<Entry>, used: seq<Entry>, tree: map<nat, Entry>,
                                              frames: seq<Frame>, entries: seq<Entry>, f: Frame)
    requires Lists(free, used, tree, frames, entries) && free != [] && f.id !in tree
    ensures Lists(free[1..], used + [free[0]], tree[f.id := free[0]], frames + [f], entries)
    ensures Minus(free, free[0]) == free[1..] && free[0] in entries && free[0] !in used
  {
    FiledOpen(free, used, tree, frames, entries);
    var used', frames', tree' := used + [free[0]], frames + [f], tree[f.id := free[0]];
    assert UniqueIds(frames') by {
      assert forall i :: 0 <= i < |frames| ==> frames[i].id in tree;
    }
    assert Indexed(tree', used', frames') by {
      assert frames'[|frames|].id == f.id;
      forall k <- tree' ensures HasId(frames', k) {
        if k != f.id {
          assert HasId(frames, k);
          var i :| 0 <= i < |frames| && frames[i].id == k;
          assert frames'[i].id == k;
        }
      }
    }
    assert Partition(free[1..], used', entries);
    FiledClose(free[1..], used', tree', frames', entries);
  }

  /** Frames that keep their ids keep their place in the lists. */
  lemma {:induction false} SameIdsKeepLists(free: seq<Entry>, used: seq<Entry>, tree: map<nat, Entry>,
                                            frames: seq<Frame>, frames': seq<Frame>, entries: seq<Entry>)
    requires Lists(free, used, tree, frames, entries) && |frames'| == |frames|
    requires forall i :: 0 <= i < |frames| ==> frames'[i].id == frames[i].id
    ensures Lists(free, used, tree, frames', entries)
  {
    FiledOpen(free, used, tree, frames, entries);
    forall k <- tree ensures HasId(frames', k) {
      assert HasId(frames, k);
      var i :| 0 <= i < |frames| && frames[i].id == k;
      assert frames'[i].id == k;
    }
    FiledClose(free, used, tree, frames', entries);
  }

  /** The tree finds what a search of the used list would. */
  lemma {:induction false} TreeLookup(free: seq<Entry>, used: seq<Entry>, tree: map<nat, Entry>, frames: seq<Frame>,
                                      entries: seq<Entry>, id: nat)
    requires Lists(free, used, tree, frames, entries)
    ensures id in tree ==> Lookup(frames, id) < |frames| == |used| && tree[id] == used[Lookup(frames, id)]
    ensures id !in tree ==> Lookup(frames, id) == |frames|
  {
    FiledOpen(free, used, tree, frames, entries);
    if id in tree {
      assert HasId(frames, id);
      var i :| 0 <= i < |frames| && frames[i].id == id;
      LookupUnique(frames, i);
    }
  }

  lemma {:induction false} ListSizes(free: seq<Entry>, used: seq<Entry>, tree: map<nat, Entry>, frames: seq<Frame>,
                                     entries: seq<Entry>)
    requires Lists(free, used, tree, frames, entries)
    ensures |free| + |used| == |entries| && UniqueIds(frames) && NoDuplicates(used)
  {
    FiledOpen(free, used, tree, frames, entries);
  }

  lemma {:induction false} FreeKeepsRepresents(used: seq<Entry>, frames: seq<Frame>, repr: set<object>, j: nat)
    requires Represents(used, frames, repr) && j < |used| == |frames|
    ensures Represents(Without(used, j), Without(frames, j), repr)
  {
    RepresentsOpen(used, frames, repr);
    RepresentsClose(Without(used, j), Without(frames, j), repr);
  }

  lemma {:induction false} AppendRepresents(used: seq<Entry>, frames: seq<Frame>, repr: set<object>, e: Entry, f: Frame)
    requires Represents(used, frames, repr) && EntryIs(e, f) && Owned([e], repr)
    ensures Represents(used + [e], frames + [f], repr)
  {
    RepresentsOpen(used, frames, repr);
    assert Owned([e], repr) && [e][0] == e;
    RepresentsClose(used + [e], frames + [f], repr);
  }

  /** Entry j shares nothing with the other used entries. */
  ghost predicate Apart(used: seq<Entry>, j: nat) {
    j < |used| && forall i :: 0 <= i < |used| && i != j ==>
      used[i] != used[j] && used[i].chunks != used[j].chunks && used[i].buffer != used[j].buffer
  }

  lemma {:induction false} ListedApart(free: seq<Entry>, used: seq<Entry>, tree: map<nat, Entry>, frames: seq<Frame>,
                                       entries: seq<Entry>, cfg: Config, j: nat)
    requires Lists(free, used, tree, frames, entries) && OwnArrays(entries, cfg) && j < |used|
    ensures Apart(used, j) && used[j].chunks.Length == cfg.numChunks && used[j].buffer.Length == cfg.outputMtu
  {
    FiledOpen(free, used, tree, frames, entries);
    var b :| 0 <= b < |entries| && entries[b] == used[j];
    forall i | 0 <= i < |used| && i != j
      ensures used[i] != used[j] && used[i].chunks != used[j].chunks && used[i].buffer != used[j].buffer
    {
      var a :| 0 <= a < |entries| && entries[a] == used[i];
      assert used[i] != used[j];
    }
  }

  /** Writing a chunk that clashes with none leaves the others' bytes alone. */
  lemma {:induction false} HoldsMore(chunks: seq<Extent>, buffer: bytes, ps: seq<Piece>, c: Piece,
                                     chunks': seq<Extent>, buffer': bytes)
    requires Holds(chunks, buffer, ps) && |ps| < |chunks| && c.End() <= |buffer|
    requires forall i :: 0 <= i < |ps| ==> !Clash(ps[i], c)
    requires chunks' == chunks[|ps| := Extent(c.start, |c.data|)]
    requires buffer' == buffer[..c.start] + c.data + buffer[c.End()..]
    ensures Holds(chunks', buffer', ps + [c])
  {
    var qs := ps + [c];
    forall i | 0 <= i < |qs| ensures buffer'[qs[i].start..qs[i].End()] == qs[i].data {
      if i < |ps| {
        assert !Clash(ps[i], c);
        assert buffer[ps[i].start..ps[i].End()] == ps[i].data;
      }
    }
  }

  lemma {:induction false} ReplaceRepresents(used: seq<Entry>, frames: seq<Frame>, repr: set<object>, j: nat, f: Frame)
    requires |used| == |frames| && Owned(used, repr) && j < |used| && EntryIs(used[j], f)
    requires forall i :: 0 <= i < |used| && i != j ==> EntryIs(used[i], frames[i])
    ensures Represents(used, frames[j := f], repr)
  {
    RepresentsClose(used, frames[j := f], repr);
  }

  /** The frame entries with their chunk tables and buffers. */
  method MakeEntries(numFrames: nat, numChunks: nat, outputMtu: nat) returns (entries: seq<Entry>, ghost repr: set<object>)
    ensures |entries| == numFrames && OwnArrays(entries, Config(outputMtu, numChunks, numFrames))
    ensures Owned(entries, repr) && fresh(repr)
  {
    entries, repr := [], {};
    for i := 0 to numFrames
      invariant |entries| == i && OwnArrays(entries, Config(outputMtu, numChunks, numFrames))
      invariant Owned(entries, repr) && fresh(repr)
    {
      var e := new Entry(numChunks, outputMtu);
      entries := entries + [e];
      repr := repr + {e, e.chunks, e.buffer};
    }
  }

  /** The chunk in the entry: fields, chunk table and buffer. */
  method AddChunk(frame: Entry, now: nat, chunkStart: nat, isLast: bool, payload: bytes, ghost f: Frame)
    requires EntryIs(frame, f) && Acceptable(f, Piece(chunkStart, payload), isLast)
    requires |f.pieces| < frame.chunks.Length && chunkStart + |payload| <= frame.buffer.Length
    modifies frame, frame.chunks, frame.buffer
    ensures EntryIs(frame, Added(f, Piece(chunkStart, payload), isLast, now))
  {
    ghost var c := Piece(chunkStart, payload);
    ghost var chunks, buffer := frame.chunks[..], frame.buffer[..];
    var chunkLen := |payload|;
    var chunkEnd := chunkStart + chunkLen;
    frame.time := now;
    frame.chunks[frame.numChunks] := Extent(chunkStart, chunkLen);
    frame.numChunks := frame.numChunks + 1;
    frame.sum := frame.sum + chunkLen;
    if isLast {
      frame.length := chunkEnd;
    } else if frame.length < 0 {
      if frame.lengthSoFar < chunkEnd {
        frame.lengthSoFar := chunkEnd;
      }
    }
    CopyInto(frame.buffer, chunkStart, payload);
    HoldsMore(chunks, buffer, f.pieces, c, frame.chunks[..], frame.buffer[..]);
    assert (f.pieces + [c])[..|f.pieces|] == f.pieces;
  }

  /** The loop over the chunks of a frame. */
  method OverlapsAny(frame: Entry, chunkStart: nat, chunkLen: nat, ghost f: Frame, ghost c: Piece) returns (b: bool)
    requires EntryIs(frame, f) && c.start == chunkStart && |c.data| == chunkLen
    ensures b <==> exists i :: 0 <= i < |f.pieces| && Clash(f.pieces[i], c)
  {
    for i := 0 to frame.numChunks
      invariant forall k :: 0 <= k < i ==> !Clash(f.pieces[k], c)
    {
      var chunk := frame.chunks[i];
      assert frame.chunks[..][i] == chunk;
      if ChunksOverlap(chunk.start, chunk.len, chunkStart, chunkLen) {
        assert Clash(f.pieces[i], c);
        return true;
      }
    }
    b := false;
  }

  /** The checks a chunk must pass to be added to its frame. */
  method CheckChunk(frame: Entry, chunkStart: nat, isLast: bool, payload: bytes, ghost f: Frame) returns (ok: bool)
    requires EntryIs(frame, f)
    ensures ok <==> Acceptable(f, Piece(chunkStart, payload), isLast)
  {
    var chunkEnd := chunkStart + |payload|;
    var overlap := OverlapsAny(frame, chunkStart, |payload|, f, Piece(chunkStart, payload));
    if overlap {
      return false;
    }
    if isLast {
      if frame.length >= 0 {
        return false;
      }
      if frame.lengthSoFar > chunkEnd {
        return false;
      }
    } else {
      if frame.length >= 0 {
        if chunkEnd > frame.length {
          return false;
        }
      }
    }
    ok := true;
  }

  class Assembler {
    const outputMtu: nat
    const numChunks: nat
    const timeTolerance: nat
    const entries: seq<Entry>
    var time: nat
    var framesFree: seq<Entry>
    var framesUsed: seq<Entry>
    var framesUsedTree: map<nat, Entry>
    var inLen: int
    var input: bytes
    var inPos: nat
    var output: seq<bytes>
    ghost var state: State
    ghost const repr: set<object>

    ghost function Cfg(): Config {
      Config(outputMtu, numChunks, timeTolerance)
    }

    /** The representation: lists, tree and entries against the abstract state. */
    ghost predicate Shape()
      reads this, repr
    {
      && Cfg().Ok() && |entries| == timeTolerance && OwnArrays(entries, Cfg())
      && Lists(framesFree, framesUsed, framesUsedTree, state.used, entries)
      && state.time == time && |framesUsed| == |state.used| && this !in repr && Owned(entries, repr) && Represents(framesUsed, state.used, repr)
    }

    ghost predicate Valid()
      reads this, repr
    {
      Shape() && Inv(Cfg(), state) && time <= FPA_MAX_TIME
    }

    /** FragmentProtoAssembler_Init; every entry starts on the free list. */
    constructor (outputMtu: nat, numFrames: nat, numChunks: nat)
      requires 0 < numFrames < FPA_MAX_TIME && numChunks > 0
      ensures Valid() && state == State(0, []) && output == [] && inLen == -1 && fresh(repr)
      ensures Cfg() == Config(outputMtu, numChunks, numFrames)
    {
      this.outputMtu := outputMtu;
      this.numChunks := numChunks;
      time := 0;
      timeTolerance := numFrames;
      var es, r := MakeEntries(numFrames, numChunks, outputMtu);
      entries := es;
      repr := r;
      framesFree := es;
      framesUsed := [];
      framesUsedTree := map[];
      inLen := -1;
      input := [];
      inPos := 0;
      output := [];
      state := State(0, []);
      new;
      FiledClose(framesFree, framesUsed, framesUsedTree, state.used, entries);
      RepresentsClose(framesUsed, state.used, repr);
    }

    /** free_frame */
    method FreeFrame(frame: Entry, ghost j: nat)
      requires Shape() && j < |framesUsed| && framesUsed[j] == frame
      modifies `framesUsed, `framesFree, `framesUsedTree, `state
      ensures Shape() && state == Fragment.FreeFrame(old(state), j)
      ensures framesUsed == Without(old(framesUsed), j) && framesFree == old(framesFree) + [frame]
    {
      FreeKeepsLists(framesFree, framesUsed, framesUsedTree, state.used, entries, j);
      FreeKeepsRepresents(framesUsed, state.used, repr, j);
      EntryAt(framesUsed, state.used, repr, j);
      framesUsed := Minus(framesUsed, frame);
      framesUsedTree := framesUsedTree - {frame.id};
      framesFree := framesFree + [frame];
      state := Fragment.FreeFrame(state, j);
    }

    /** free_oldest_frame */
    method FreeOldestFrame()
      requires Shape() && |framesUsed| > 0
      modifies `framesUsed, `framesFree, `framesUsedTree, `state
      ensures Shape() && state == Fragment.FreeFrame(old(state), 0)
      ensures framesFree == old(framesFree) + [old(framesUsed)[0]]
      ensures framesUsed == Without(old(framesUsed), 0)
    {
      FreeFrame(framesUsed[0], 0);
    }

    /** The initial values of a frame entry that is not used yet. */
    static method InitEntry(frame: Entry, id: nat, time: nat, ghost used: seq<Entry>, ghost frames: seq<Frame>,
                            ghost repr: set<object>)
      requires Represents(used, frames, repr) && frame !in used
      modifies frame
      ensures EntryIs(frame, Frame(id, time, [], -1, 0)) && Represents(used, frames, repr)
    {
      RepresentsOpen(used, frames, repr);
      frame.id := id;
      frame.time := time;
      frame.numChunks := 0;
      frame.sum := 0;
      frame.length := -1;
      frame.lengthSoFar := 0;
      assert forall i :: 0 <= i < |used| ==> EntryIs(used[i], frames[i]);
      RepresentsClose(used, frames, repr);
    }

    /** allocate_new_frame once there is a free entry */
    method TakeFree(id: nat) returns (frame: Entry)
      requires Shape() && framesFree != [] && Lookup(state.used, id) == |state.used|
      modifies `framesUsed, `framesFree, `framesUsedTree, `state, repr
      ensures Shape() && state == old(state).(used := old(state).used + [Frame(id, time, [], -1, 0)])
      ensures framesUsed == old(framesUsed) + [frame]
    {
      frame := framesFree[0];
      ghost var f := Frame(id, time, [], -1, 0);
      TreeLookup(framesFree, framesUsed, framesUsedTree, state.used, entries, id);
      AllocateKeepsLists(framesFree, framesUsed, framesUsedTree, state.used, entries, f);
      InitEntry(frame, id, time, framesUsed, state.used, repr);
      AppendRepresents(framesUsed, state.used, repr, frame, f);
      framesFree := Minus(framesFree, frame);
      framesUsed := framesUsed + [frame];
      framesUsedTree := framesUsedTree[id := frame];
      state := state.(used := state.used + [f]);
    }

    /** allocate_new_frame */
    method AllocateNewFrame(id: nat) returns (frame: Entry)
      requires Shape() && Lookup(state.used, id) == |state.used|
      modifies `framesUsed, `framesFree, `framesUsedTree, `state, repr
      ensures Shape() && |old(state).used| <= timeTolerance && state == Allocate(Cfg(), old(state), id)
      ensures |framesUsed| > 0 && framesUsed[|framesUsed| - 1] == frame
    {
      ListSizes(framesFree, framesUsed, framesUsedTree, state.used, entries);
      if framesFree == [] {
        WithoutLookup(state.used, 0, id);
        FreeOldestFrame();
      }
      frame := TakeFree(id);
    }

    /** A used frame is thrown out and its id gets a fresh one. */
    method RenewFrame(frame: Entry, id: nat, ghost j: nat) returns (fresh': Entry)
      requires Shape() && j < |framesUsed| && framesUsed[j] == frame && state.used[j].id == id
      modifies `framesUsed, `framesFree, `framesUsedTree, `state, repr
      ensures Shape() && |old(state).used| <= timeTolerance
      ensures state == Allocate(Cfg(), Fragment.FreeFrame(old(state), j), id)
      ensures |framesUsed| > 0 && framesUsed[|framesUsed| - 1] == fresh'
    {
      ListSizes(framesFree, framesUsed, framesUsedTree, state.used, entries);
      WithoutLookup(state.used, j, id);
      FreeFrame(frame, j);
      fresh' := AllocateNewFrame(id);
    }

    /** The frame a chunk goes to: found, or allocated. */
    method FrameForChunk(id: nat) returns (frame: Entry, ghost j: nat)
      requires Shape() && |state.used| <= timeTolerance
      modifies `framesUsed, `framesFree, `framesUsedTree, `state, repr
      ensures Shape() && (state, j) == FrameFor(Cfg(), old(state), id)
      ensures j < |framesUsed| && framesUsed[j] == frame
    {
      TreeLookup(framesFree, framesUsed, framesUsedTree, state.used, entries, id);
      j := Lookup(state.used, id);
      if id !in framesUsedTree {
        frame := AllocateNewFrame(id);
        j := |framesUsed| - 1;
        return;
      }
      frame := framesUsedTree[id];
      EntryAt(framesUsed, state.used, repr, j);
      if time - frame.time > timeTolerance {
        frame := RenewFrame(frame, id, j);
        j := |framesUsed| - 1;
      }
    }

    /** Adding an acceptable chunk to a used frame. */
    method Accept(frame: Entry, chunkStart: nat, isLast: bool, payload: bytes, ghost j: nat, ghost f: Frame)
      requires Shape() && j < |framesUsed| && framesUsed[j] == frame && f == state.used[j]
      requires Acceptable(f, Piece(chunkStart, payload), isLast) && |f.pieces| < numChunks
      requires chunkStart + |payload| <= outputMtu
      modifies `state, repr
      ensures Shape() && framesUsed == old(framesUsed)
      ensures state == old(state).(used := old(state).used[j := Added(f, Piece(chunkStart, payload), isLast, time)])
    {
      ghost var frames := state.used;
      ListedApart(framesFree, framesUsed, framesUsedTree, frames, entries, Cfg(), j);
      RepresentsOpen(framesUsed, frames, repr);
      AddChunk(frame, time, chunkStart, isLast, payload, f);
      ghost var f' := Added(f, Piece(chunkStart, payload), isLast, time);
      ReplaceRepresents(framesUsed, frames, repr, j, f');
      SameIdsKeepLists(framesFree, framesUsed, framesUsedTree, frames, frames[j := f'], entries);
      state := state.(used := frames[j := f']);
    }

    /** The end of process_chunk: the entry is freed, then its buffer sent. */
    method SendFrame(frame: Entry, ghost j: nat, ghost f: Frame)
      requires Shape() && j < |framesUsed| && framesUsed[j] == frame && state.used[j] == f
      requires 0 <= f.length <= outputMtu && Disjoint(f.pieces) && Fragment.Inside(f.pieces, f.length)
      requires Total(f.pieces) == f.length
      modifies `framesUsed, `framesFree, `framesUsedTree, `state, `output
      ensures Shape() && state == Fragment.FreeFrame(old(state), j)
      ensures output == old(output) + [Assembled(f.pieces, f.length)]
    {
      EntryAt(framesUsed, state.used, repr, j);
      ListedApart(framesFree, framesUsed, framesUsedTree, state.used, entries, Cfg(), j);
      CompleteBuffer(frame, f);
      FreeFrame(frame, j);
      output := output + [frame.buffer[..frame.length]];
    }

    /** process_chunk once the frame is known */
    method PlaceChunk(frame: Entry, chunkStart: nat, isLast: bool, payload: bytes, ghost j: nat) returns (res: bool)
      requires Shape() && Inv(Cfg(), state) && j < |framesUsed| && framesUsed[j] == frame
      requires chunkStart + |payload| <= outputMtu
      modifies `framesUsed, `framesFree, `framesUsedTree, `state, `output, repr
      ensures Shape() && state == Place(Cfg(), old(state), j, Piece(chunkStart, payload), isLast).0
      ensures var sent := Place(Cfg(), old(state), j, Piece(chunkStart, payload), isLast).1;
        output == old(output) + Sent(sent) && (res <==> sent.Some?)
    {
      ghost var f, c, frames := state.used[j], Piece(chunkStart, payload), state.used;
      EntryAt(framesUsed, frames, repr, j);
      var ok := CheckChunk(frame, chunkStart, isLast, payload, f);
      if !ok {
        FreeFrame(frame, j);
        return false;
      }
      ghost var f' := Added(f, c, isLast, time);
      assert GoodFrame(Cfg(), f);
      Accept(frame, chunkStart, isLast, payload, j, f);
      EntryAt(framesUsed, state.used, repr, j);
      ReplacedWithout(frames, j, f');
      if frame.length < 0 || frame.sum < frame.length {
        if frame.numChunks == numChunks {
          FreeFrame(frame, j);
        }
        return false;
      }
      AddedGood(Cfg(), f, c, isLast, time);
      SendFrame(frame, j, f');
      res := true;
    }

    /** process_chunk; true when it has sent a frame */
    method ProcessChunk(frameId: nat, chunkStart: nat, chunkLen: nat, isLast: bool, payload: bytes)
      returns (res: bool)
      requires Valid() && |payload| == chunkLen
      modifies `framesUsed, `framesFree, `framesUsedTree, `state, `output, repr
      ensures Valid()
      ensures var r := Fragment.ProcessChunk(Cfg(), old(state), Chunk(frameId, chunkStart, isLast, payload));
        state == r.0 && output == old(output) + Sent(r.1) && (res <==> r.1.Some?)
    {
      ghost var s, c := state, Chunk(frameId, chunkStart, isLast, payload);
      ProcessChunkKeeps(Cfg(), s, c);
      if chunkStart > outputMtu {
        return false;
      }
      if chunkLen > outputMtu - chunkStart {
        return false;
      }
      FrameForKeeps(Cfg(), s, frameId);
      var frame, j := FrameForChunk(frameId);
      res := PlaceChunk(frame, chunkStart, isLast, payload, j);
    }

    /** The first loop of reduce_times: timed-out frames go, and the frame with the least time is returned. */
    method DropTimedOut() returns (minframe: Entry?)
      requires Shape()
      modifies `framesUsed, `framesFree, `framesUsedTree, `state
      ensures Shape() && state == State(time, Survivors(Cfg(), time, old(state).used))
      ensures Least(minframe, framesUsed, state.used, |state.used|)
    {
      minframe := null;
      ghost var all := state.used;
      ghost var n: nat := 0;
      var i: nat := 0;
      while i < |framesUsed|
        invariant Shape() && Dropped(Cfg(), time, state.used, all, n, i)
        invariant Least(minframe, framesUsed, state.used, i)
        decreases |all| - n
      {
        DropStep(Cfg(), time, state.used, all, n, i);
        minframe, i := VisitFrame(minframe, i);
        n := n + 1;
      }
      assert all[..n] == all;
    }

    /** One frame of that loop: the least frame so far, and the position of the next one. */
    method VisitFrame(minframe: Entry?, i: nat) returns (min: Entry?, next: nat)
      requires Shape() && i < |framesUsed| && Least(minframe, framesUsed, state.used, i)
      modifies `framesUsed, `framesFree, `framesUsedTree, `state
      ensures Shape() && Least(min, framesUsed, state.used, next)
      ensures if TimedOut(Cfg(), time, old(state).used[i]) then next == i && state == Fragment.FreeFrame(old(state), i)
              else next == i + 1 && state == old(state)
    {
      var frame := framesUsed[i];
      EntryAt(framesUsed, state.used, repr, i);
      if time - frame.time > timeTolerance {
        LeastWithout(minframe, framesUsed, state.used, i);
        FreeFrame(frame, i);
        return minframe, i;
      }
      min := minframe;
      LeastMore(minframe, framesUsed, state.used, i);
      if minframe == null || frame.time < minframe.time {
        min := frame;
      }
      next := i + 1;
    }

    /** One step of the second loop of reduce_times. */
    method SubtractTime(i: nat, minTime: nat)
      requires Shape() && i < |framesUsed| && state.used[i].time >= minTime
      modifies `state, repr
      ensures Shape() && framesUsed == old(framesUsed)
      ensures state == old(state).(used := old(state).used[i := Aged(old(state).used[i], minTime)])
    {
      var frame := framesUsed[i];
      ghost var frames, f' := state.used, Aged(state.used[i], minTime);
      ListedApart(framesFree, framesUsed, framesUsedTree, frames, entries, Cfg(), i);
      RepresentsOpen(framesUsed, frames, repr);
      frame.time := frame.time - minTime;
      ReplaceRepresents(framesUsed, frames, repr, i, f');
      SameIdsKeepLists(framesFree, framesUsed, framesUsedTree, frames, frames[i := f'], entries);
      state := state.(used := frames[i := f']);
    }

    /** reduce_times */
    method ReduceTimes()
      requires Shape() && forall f <- state.used :: f.time <= time
      modifies `framesUsed, `framesFree, `framesUsedTree, `state, `time, repr
      ensures Shape() && state == FragmentClock.ReduceTimes(Cfg(), old(state))
    {
      SurvivorsMembers(Cfg(), time, state.used);
      var minframe := DropTimedOut();
      if minframe == null {
        time := 0;
        state := state.(time := 0);
        return;
      }
      assert state.used[..|state.used|] == state.used;
      Rebase(minframe.time);
    }

    /** The rest of reduce_times: the least time is subtracted from all. */
    method Rebase(minTime: nat)
      requires Shape() && state.used != [] && minTime == MinTime(state.used)
      requires forall f <- state.used :: f.time <= time
      modifies `state, `time, repr
      ensures Shape() && state == Rebased(old(state))
    {
      MinTimeIsMin(state.used);
      assert state.used[0] in state.used;
      SubtractAll(minTime);
      time := time - minTime;
      state := state.(time := time);
    }

    /** The second loop of reduce_times. */
    method SubtractAll(minTime: nat)
      requires Shape() && CanShift(state.used, -(minTime as int))
      modifies `state, repr
      ensures Shape() && state == State(time, LaterFrames(old(state).used, -(minTime as int)))
    {
      ghost var kept := state.used;
      for i := 0 to |framesUsed|
        invariant Shape() && |framesUsed| == |kept| && CanShift(kept[..i], -(minTime as int))
        invariant state == State(time, LaterFrames(kept[..i], -(minTime as int)) + kept[i..])
      {
        AgedStep(kept, i, minTime);
        SubtractTime(i, minTime);
      }
      assert kept[..|kept|] == kept;
    }

    /** The clock at the end of process_input when it has reached its maximum */
    method WrapClock()
      requires Valid() && time == FPA_MAX_TIME
      modifies `framesUsed, `framesFree, `framesUsedTree, `state, `time, repr
      ensures Shape() && state == Tick(Cfg(), old(state))
    {
      ReducedClock(Cfg(), state, FragmentClock.ReduceTimes(Cfg(), state));
      ReduceTimes();
      if framesUsed != [] {
        assert time < FPA_MAX_TIME;
        time := time + 1;
        state := state.(time := time);
      } else {
        assert time == 0;
      }
    }

    /** The end of process_input: the clock, and no input packet any more. */
    method EndPacket()
      requires Valid()
      modifies `framesUsed, `framesFree, `framesUsedTree, `state, `time, `inLen, repr
      ensures Valid() && state == Tick(Cfg(), old(state)) && inLen == -1
    {
      TickKeeps(Cfg(), state);
      if time == FPA_MAX_TIME {
        WrapClock();
      } else {
        time := time + 1;
        state := state.(time := time);
      }
      inLen := -1;
    }

    /** One round of the loop of process_input: whether there was a chunk, and whether it completed a frame. */
    method InputStep() returns (found: bool, res: bool)
      requires Valid() && inLen == |input| && inPos < |input|
      modifies `framesUsed, `framesFree, `framesUsedTree, `state, `inPos, `output, repr
      ensures Valid() && inPos <= |input|
      ensures var rest := ParseAll(old(input[inPos..]));
        && (found <==> rest != []) && (res ==> found)
        && (!found ==> state == old(state) && output == old(output))
        && (found ==>
          var p := Fragment.ProcessChunk(Cfg(), old(state), rest[0]);
          && state == p.0 && output == old(output) + Sent(p.1) && (res <==> p.1.Some?)
          && ParseAll(input[inPos..]) == rest[1..])
    {
      var c := ReadChunk(input, inPos);
      if c.None? {
        return false, false;
      }
      ParsedFirst(input, inPos);
      res := TakeChunk(c.value);
      found := true;
    }

    /** The rest of a round, for a chunk that is complete */
    method TakeChunk(c: Chunk) returns (res: bool)
      requires Valid() && inLen == |input| && inPos + HEADER + |c.data| <= |input|
      modifies `framesUsed, `framesFree, `framesUsedTree, `state, `inPos, `output, repr
      ensures Valid() && inPos == old(inPos) + HEADER + |c.data|
      ensures var p := Fragment.ProcessChunk(Cfg(), old(state), c);
        state == p.0 && output == old(output) + Sent(p.1) && (res <==> p.1.Some?)
    {
      inPos := inPos + HEADER;
      res := ProcessChunk(c.id, c.start, |c.data|, c.last, c.data);
      inPos := inPos + |c.data|;
    }

    /** process_input: the chunks of the packet up to the first that completes a frame, or all of them */
    method ProcessInput()
      requires Valid() && inLen == |input| && inPos <= |input|
      modifies `framesUsed, `framesFree, `framesUsedTree, `state, `time, `inLen, `inPos, `output, repr
      ensures Valid() && inPos <= |input|
      ensures var r := Input(Cfg(), old(state), ParseAll(old(input[inPos..])));
        && state == r.state && output == old(output) + Sent(r.sent)
        && if r.sent.Some? then inLen == |input| && ParseAll(input[inPos..]) == r.rest else inLen == -1
    {
      ghost var all := Input(Cfg(), state, ParseAll(input[inPos..]));
      while inPos < inLen
        invariant Valid() && inLen == |input| && inPos <= |input| && output == old(output)
        invariant Input(Cfg(), state, ParseAll(input[inPos..])) == all
        decreases |ParseAll(input[inPos..])|
      {
        var found, res := InputStep();
        if !found {
          break;
        }
        if res {
          return;
        }
      }
      EndPacket();
    }

    /** input_handler_send */
    method InputHandlerSend(data: bytes)
      requires Valid() && inLen == -1
      modifies `framesUsed, `framesFree, `framesUsedTree, `state, `time, `input, `inLen, `inPos, `output, repr
      ensures Valid() && input == data && inPos <= |input|
      ensures var r := Input(Cfg(), old(state), ParseAll(data));
        && state == r.state && output == old(output) + Sent(r.sent)
        && if r.sent.Some? then inLen == |input| && ParseAll(input[inPos..]) == r.rest else inLen == -1
    {
      inLen := |data|;
      input := data;
      inPos := 0;
      assert input[0..] == data;
      ProcessInput();
    }

    /** output_handler_done, until the packet is finished */
    method FinishPacket(ghost rest: seq<Chunk>, ghost all: (State, seq<bytes>))
      requires Valid() && inLen == |input| && inPos <= |input| && ParseAll(input[inPos..]) == rest
      requires all == Run(Cfg(), state, Arrivals(rest) + [PacketEnds])
      modifies `framesUsed, `framesFree, `framesUsedTree, `state, `time, `inLen, `inPos, `output, repr
      ensures Valid() && inLen == -1
      ensures state == all.0 && output == old(output) + all.1
      decreases |rest|
    {
      ghost var r := Input(Cfg(), state, rest);
      ghost var later := GoesOn(Cfg(), state, rest, r, all, output);
      ProcessInput();
      if inLen >= 0 {
        FinishPacket(r.rest, later);
      }
    }

    /** A packet, with an output that takes every frame in the end: what the handlers do together is one run. */
    method ReceivePacket(data: bytes)
      requires Valid() && inLen == -1
      modifies `framesUsed, `framesFree, `framesUsedTree, `state, `time, `input, `inLen, `inPos, `output, repr
      ensures Valid() && inLen == -1
      ensures var r := Run(Cfg(), old(state), Arrivals(ParseAll(data)) + [PacketEnds]);
        state == r.0 && output == old(output) + r.1
    {
      ghost var rest := ParseAll(data);
      ghost var all := Run(Cfg(), state, Arrivals(rest) + [PacketEnds]);
      ghost var r := Input(Cfg(), state, rest);
      ghost var later := GoesOn(Cfg(), state, rest, r, all, output);
      InputHandlerSend(data);
      if inLen >= 0 {
        FinishPacket(r.rest, later);
      }
    }
  }

  lemma {:induction false} ReducedClock(cfg: Config, s: State, r: State)
    requires cfg.Ok() && Inv(cfg, s) && s.time == FPA_MAX_TIME && r == FragmentClock.ReduceTimes(cfg, s)
    ensures r.time < FPA_MAX_TIME && (r.used == [] ==> r.time == 0)
  {
    ReduceTimesExact(cfg, s);
  }

  /** What process_input does with the chunks left in the packet. */
  datatype Processed = Processed(state: State, sent: Option<bytes>, rest: seq<Chunk>)

  ghost function Input(cfg: Config, s: State, rest: seq<Chunk>): (r: Processed)
    requires cfg.Ok() && Inv(cfg, s)
    ensures Inv(cfg, r.state) && |r.rest| <= |rest| && (r.sent.Some? ==> |r.rest| < |rest|)
    decreases |rest|
  {
    if rest == [] then
      TickInv(cfg, s);
      Processed(Tick(cfg, s), None, [])
    else
      ProcessChunkKeeps(cfg, s, rest[0]);
      var p := Fragment.ProcessChunk(cfg, s, rest[0]);
      if p.1.Some? then Processed(p.0, p.1, rest[1..]) else Input(cfg, p.0, rest[1..])
  }

  /** One call of process_input is the start of the run of a packet, and the next one goes on from there. */
  lemma {:induction false} InputIsRun(cfg: Config, s: State, rest: seq<Chunk>)
    requires cfg.Ok() && Inv(cfg, s)
    ensures var r, all := Input(cfg, s, rest), Run(cfg, s, Arrivals(rest) + [PacketEnds]);
      if r.sent.None? then all.0 == r.state && all.1 == []
      else
        var later := Run(cfg, r.state, Arrivals(r.rest) + [PacketEnds]);
        all.0 == later.0 && all.1 == [r.sent.value] + later.1
    decreases |rest|
  {
    var events := Arrivals(rest) + [PacketEnds];
    if rest == [] {
      RunOne(cfg, s, PacketEnds);
      assert events == [PacketEnds];
    } else {
      ProcessChunkKeeps(cfg, s, rest[0]);
      assert events[1..] == Arrivals(rest[1..]) + [PacketEnds];
      var p := Fragment.ProcessChunk(cfg, s, rest[0]);
      if p.1.None? {
        InputIsRun(cfg, p.0, rest[1..]);
      }
    }
  }

  lemma {:induction false} GoesOn(cfg: Config, s: State, rest: seq<Chunk>, r: Processed, all: (State, seq<bytes>),
                                  before: seq<bytes>) returns (later: (State, seq<bytes>))
    requires cfg.Ok() && Inv(cfg, s) && r == Input(cfg, s, rest)
    requires all == Run(cfg, s, Arrivals(rest) + [PacketEnds])
    ensures r.sent.None? ==> r.state == all.0 && before + Sent(r.sent) == before + all.1
    ensures r.sent.Some? ==>
      && later == Run(cfg, r.state, Arrivals(r.rest) + [PacketEnds])
      && all.0 == later.0 && before + all.1 == before + Sent(r.sent) + later.1
  {
    InputIsRun(cfg, s, rest);
    later := Run(cfg, r.state, Arrivals(r.rest) + [PacketEnds]);
  }

  lemma {:induction false} ParsedFirst(input: bytes, pos: nat)
    requires pos <= |input| && Parse(input[pos..]).Some?
    ensures var c := Parse(input[pos..]).value;
      var next := pos + HEADER + |c.data|;
      next <= |input| && ParseAll(input[pos..]) == [c] + ParseAll(input[next..])
  {
    var c := Parse(input[pos..]).value;
    assert input[pos..][HEADER + |c.data|..] == input[pos + HEADER + |c.data|..];
  }

  /** The header and the checks on it in the loop of process_input. */
  method ReadChunk(input: bytes, inPos: nat) returns (c: Option<Chunk>)
    requires inPos < |input|
    ensures c == Parse(input[inPos..])
  {
    if |input| - inPos < HEADER {
      return None;
    }
    var header := input[inPos..inPos + HEADER];
    var frameId := FromLe16(header[0], header[1]);
    var chunkStart := FromLe16(header[2], header[3]);
    var chunkLen := FromLe16(header[4], header[5]);
    var isLast := header[6];
    if !(isLast == 0 || isLast == 1) {
      return None;
    }
    if |input| - (inPos + HEADER) < chunkLen {
      return None;
    }
    var data := input[inPos + HEADER..inPos + HEADER + chunkLen];
    assert data == input[inPos..][HEADER..HEADER + chunkLen];
    c := Some(Chunk(frameId, chunkStart, isLast == 1, data));
  }

  lemma {:induction false} AgedStep(kept: seq<Frame>, i: nat, m: nat)
    requires i < |kept| && CanShift(kept, -(m as int))
    ensures CanShift(kept[..i], -(m as int)) && CanShift(kept[..i + 1], -(m as int)) && m <= kept[i].time
    ensures var f := LaterFrames(kept[..i], -(m as int)) + kept[i..];
      f[i] == kept[i] && f[i := Aged(kept[i], m)] == LaterFrames(kept[..i + 1], -(m as int)) + kept[i + 1..]
  {
    var f := LaterFrames(kept[..i], -(m as int)) + kept[i..];
    var g := LaterFrames(kept[..i + 1], -(m as int)) + kept[i + 1..];
    assert f[i := Aged(kept[i], m)] == g;
  }

  function Aged(f: Frame, m: nat): Frame
    requires m <= f.time
  {
    f.(time := f.time - m)
  }

  /** min is the first of the first i used entries that has the least time, or null if i is 0. */
  ghost predicate Least(min: Entry?, used: seq<Entry>, frames: seq<Frame>, i: nat)
    reads min
  {
    && i <= |used| == |frames|
    && (if i == 0 then min == null
        else min != null && min in used[..i] && min.time == MinTime(frames[..i]))
  }

  lemma {:induction false} LeastWithout(min: Entry?, used: seq<Entry>, frames: seq<Frame>, i: nat)
    requires Least(min, used, frames, i) && i < |used|
    ensures Least(min, Without(used, i), Without(frames, i), i)
  {
    assert Without(used, i)[..i] == used[..i] && Without(frames, i)[..i] == frames[..i];
  }

  lemma {:induction false} LeastMore(min: Entry?, used: seq<Entry>, frames: seq<Frame>, i: nat)
    requires Least(min, used, frames, i) && i < |used| && EntryIs(used[i], frames[i])
    ensures Least(if min == null || used[i].time < min.time then used[i] else min, used, frames, i + 1)
  {
    assert used[..i + 1] == used[..i] + [used[i]];
    assert frames[..i + 1][..i] == frames[..i];
  }

  /** After n of the frames `all`, the first i in use are the survivors among them. */
  ghost predicate Dropped(cfg: Config, now: nat, frames: seq<Frame>, all: seq<Frame>, n: nat, i: nat) {
    && n <= |all| && i == |Survivors(cfg, now, all[..n])|
    && frames == Survivors(cfg, now, all[..n]) + all[n..]
  }

  lemma {:induction false} DropStep(cfg: Config, now: nat, frames: seq<Frame>, all: seq<Frame>, n: nat, i: nat)
    requires Dropped(cfg, now, frames, all, n, i) && i < |frames|
    ensures n < |all| && frames[i] == all[n]
    ensures if TimedOut(cfg, now, frames[i]) then Dropped(cfg, now, Without(frames, i), all, n + 1, i)
            else Dropped(cfg, now, frames, all, n + 1, i + 1)
  {
    assert all[..n + 1][..n] == all[..n];
    assert all[n..] == [all[n]] + all[n + 1..];
  }

  lemma {:induction false} ReplacedWithout(frames: seq<Frame>, j: nat, f: Frame)
    requires j < |frames|
    ensures Without(frames[j := f], j) == Without(frames, j)
  {
  }

  /** A complete frame's buffer starts with the overlay of its pieces. */
  lemma {:induction false} CompleteBuffer(e: Entry, f: Frame)
    requires EntryIs(e, f) && Disjoint(f.pieces) && 0 <= f.length <= e.buffer.Length
    requires Fragment.Inside(f.pieces, f.length) && Total(f.pieces) == f.length
    ensures e.buffer[..f.length] == Assembled(f.pieces, f.length)
  {
    var b := e.buffer[..];
    forall i | 0 <= i < |f.pieces|
      ensures b[..f.length][f.pieces[i].start..f.pieces[i].End()] == f.pieces[i].data
    {
      assert b[..f.length][f.pieces[i].start..f.pieces[i].End()] == b[f.pieces[i].start..f.pieces[i].End()];
    }
    AssembledUnique(f.pieces, f.length, b[..f.length]);
  }

  lemma {:induction false} WithoutLookup(used: seq<Frame>, j: nat, id: nat)
    requires j < |used|
    requires Lookup(used, id) == |used| || (UniqueIds(used) && used[j].id == id)
    ensures Lookup(Without(used, j), id) == |used| - 1
  {
  }
}
