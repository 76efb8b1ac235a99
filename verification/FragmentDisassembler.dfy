/** FragmentProtoDisassembler.c: frames are cut into chunks and packed into carrier packets. */
module FragmentDisassembler {
  import opened Bytes
  import opened Common
  import opened Fragment
  import opened FragmentStream

  lemma {:induction false} EncodeSnoc(cs: seq<Chunk>, c: Chunk)
    requires (forall x <- cs :: x.Fits()) && c.Fits()
    ensures EncodeAll(cs + [c]) == EncodeAll(cs) + Encode(c)
  {
    if cs == [] {
      assert cs + [c] == [c] && [c][1..] == [];
    } else {
      assert (cs + [c])[1..] == cs[1..] + [c];
      EncodeSnoc(cs[1..], c);
    }
  }

  /** The next chunk of an in-order stream. */
  lemma {:induction false} ReachedNext(frames: seq<bytes>, cs: seq<Chunk>, p: Progress, c: Chunk)
    requires Reached(frames, cs) == Some(p) && p.done < |frames|
    requires Cut(c, FrameId(p.done), frames[p.done], p.pos)
    ensures Reached(frames, cs + [c]) ==
      Some(if c.last then Progress(p.done + 1, 0, 0) else Progress(p.done, p.pos + |c.data|, p.count + 1))
  {
    assert (cs + [c])[..|cs|] == cs;
  }

  lemma {:induction false} SpreadNext(frames: seq<bytes>, cs: seq<Chunk>, p: Progress, c: Chunk, cap: nat)
    requires Reached(frames, cs) == Some(p) && p.done < |frames|
    requires Cut(c, FrameId(p.done), frames[p.done], p.pos)
    requires Spread(frames, cs, cap) && (p.count == 0 <==> p.pos == 0)
    requires p.count >= 1 && !c.last ==> |c.data| == cap
    ensures Spread(frames, cs + [c], cap)
  {
    ReachedNext(frames, cs, p, c);
    assert (cs + [c])[..|cs|] == cs;
    if p.count >= 1 && !c.last {
      assert cs != [];
      assert p.pos >= 1 + (p.count - 1) * cap;
      assert p.pos + cap >= 1 + p.count * cap by {
        assert p.count * cap == (p.count - 1) * cap + cap;
      }
    }
  }

  /** More frames to come change nothing about what has been reached. */
  lemma {:induction false} ReachedMore(frames: seq<bytes>, f: bytes, cs: seq<Chunk>, cap: nat)
    requires Reached(frames, cs).Some?
    ensures Reached(frames + [f], cs) == Reached(frames, cs)
    ensures Spread(frames, cs, cap) ==> Spread(frames + [f], cs, cap)
  {
    if cs != [] {
      ReachedMore(frames, f, cs[..|cs| - 1], cap);
    }
  }

  /** Every chunk of a packet is as long as it can be: it ends its frame, or has the longest length, or fills the packet. */
  ghost predicate Stretched(cs: seq<Chunk>, mtu: nat, limit: int) {
    && (forall c <- cs :: c.Fits())
    && forall i :: 0 <= i < |cs| ==>
      cs[i].last || (limit > 0 && |cs[i].data| == limit) || (i == |cs| - 1 && |EncodeAll(cs)| == mtu)
  }

  lemma {:induction false} StretchedNext(cs: seq<Chunk>, mtu: nat, limit: int, c: Chunk)
    requires Stretched(cs, mtu, limit) && |EncodeAll(cs)| < mtu && c.Fits()
    requires c.last || (limit > 0 && |c.data| == limit) || |EncodeAll(cs + [c])| == mtu
    ensures Stretched(cs + [c], mtu, limit)
  {
    forall i | 0 <= i < |cs| ensures cs[i].last || (limit > 0 && |cs[i].data| == limit) {
    }
  }

  /** Packets as sent against the chunks in them. */
  ghost predicate Packed(packets: seq<bytes>, sent: seq<seq<Chunk>>, mtu: nat, limit: int) {
    && |packets| == |sent|
    && forall i :: 0 <= i < |sent| ==>
      && sent[i] != [] && Stretched(sent[i], mtu, limit)
      && packets[i] == EncodeAll(sent[i]) && |packets[i]| <= mtu
  }

  lemma {:induction false} PackedMore(packets: seq<bytes>, sent: seq<seq<Chunk>>, mtu: nat, limit: int, cs: seq<Chunk>)
    requires Packed(packets, sent, mtu, limit) && cs != [] && Stretched(cs, mtu, limit) && |EncodeAll(cs)| <= mtu
    ensures Packed(packets + [EncodeAll(cs)], sent + [cs], mtu, limit)
    ensures Flatten(sent + [cs]) + [] == Flatten(sent) + cs
  {
    assert (sent + [cs])[..|sent|] == sent;
  }

  /**
   The chunks cs have cut up the frames up to p, in frames no longer than the length field can say. With a
   chunk limit no chunk is longer; without one they are as long as a packet lets them be.
   */
  ghost predicate Story(frames: seq<bytes>, cs: seq<Chunk>, p: Progress, cap: nat, limit: int) {
    && AtMost(frames, UINT16_LIMIT - 1)
    && Reached(frames, cs) == Some(p) && (p.count == 0 <==> p.pos == 0)
    && (limit <= 0 ==> Spread(frames, cs, cap))
    && (limit > 0 ==> forall i :: 0 <= i < |cs| ==> |cs[i].data| <= limit)
  }

  lemma {:induction false} StoryNext(frames: seq<bytes>, cs: seq<Chunk>, p: Progress, cap: nat, limit: int,
                                     c: Chunk, p': Progress)
    requires Story(frames, cs, p, cap, limit) && p.done < |frames|
    requires Cut(c, FrameId(p.done), frames[p.done], p.pos)
    requires if limit > 0 then |c.data| <= limit else p.count >= 1 && !c.last ==> |c.data| == cap
    requires p' == if c.last then Progress(p.done + 1, 0, 0) else Progress(p.done, p.pos + |c.data|, p.count + 1)
    ensures Story(frames, cs + [c], p', cap, limit)
  {
    ReachedNext(frames, cs, p, c);
    if limit <= 0 {
      SpreadNext(frames, cs, p, c, cap);
    }
  }

  lemma {:induction false} StoryTakes(frames: seq<bytes>, cs: seq<Chunk>, p: Progress, cap: nat, limit: int, f: bytes)
    requires Story(frames, cs, p, cap, limit) && |f| < UINT16_LIMIT
    ensures Story(frames + [f], cs, p, cap, limit)
  {
    ReachedMore(frames, f, cs, cap);
  }

  /** Everything written: finished packets, the chunks of the packet under way, and how far they get. */
  ghost predicate Written(packets: seq<bytes>, sent: seq<seq<Chunk>>, current: seq<Chunk>, frames: seq<bytes>,
                          p: Progress, mtu: nat, limit: int) {
    && mtu > HEADER && Packed(packets, sent, mtu, limit) && Stretched(current, mtu, limit)
    && Story(frames, Flatten(sent) + current, p, mtu - HEADER, limit)
  }

  /** Written, wrapped so that the methods carry it along by name. */
  ghost predicate History(packets: seq<bytes>, sent: seq<seq<Chunk>>, current: seq<Chunk>, frames: seq<bytes>,
                          p: Progress, mtu: nat, limit: int, k: nat := 3) {
    if k == 0 then Written(packets, sent, current, frames, p, mtu, limit)
    else History(packets, sent, current, frames, p, mtu, limit, k - 1)
  }

  lemma {:induction false} HistoryOpen(packets: seq<bytes>, sent: seq<seq<Chunk>>, current: seq<Chunk>,
                                       frames: seq<bytes>, p: Progress, mtu: nat, limit: int, k: nat := 3)
    requires History(packets, sent, current, frames, p, mtu, limit, k)
    ensures Written(packets, sent, current, frames, p, mtu, limit)
  {
    if k > 0 { HistoryOpen(packets, sent, current, frames, p, mtu, limit, k - 1); }
  }

  lemma {:induction false} HistoryClose(packets: seq<bytes>, sent: seq<seq<Chunk>>, current: seq<Chunk>,
                                        frames: seq<bytes>, p: Progress, mtu: nat, limit: int, k: nat := 3)
    requires Written(packets, sent, current, frames, p, mtu, limit)
    ensures History(packets, sent, current, frames, p, mtu, limit, k)
  {
    if k > 0 { HistoryClose(packets, sent, current, frames, p, mtu, limit, k - 1); }
  }

  lemma {:induction false} HistoryChunk(packets: seq<bytes>, sent: seq<seq<Chunk>>, current: seq<Chunk>,
                                        frames: seq<bytes>, p: Progress, mtu: nat, limit: int, c: Chunk, p': Progress)
    requires History(packets, sent, current, frames, p, mtu, limit) && mtu > HEADER
    requires p.done < |frames| && Cut(c, FrameId(p.done), frames[p.done], p.pos)
    requires if limit > 0 then |c.data| <= limit else p.count >= 1 && !c.last ==> |c.data| == mtu - HEADER
    requires p' == if c.last then Progress(p.done + 1, 0, 0) else Progress(p.done, p.pos + |c.data|, p.count + 1)
    requires (forall x <- current :: x.Fits()) && c.Fits() && |EncodeAll(current)| < mtu
    requires c.last || (limit > 0 && |c.data| == limit) || |EncodeAll(current + [c])| == mtu
    ensures History(packets, sent, current + [c], frames, p', mtu, limit)
  {
    HistoryOpen(packets, sent, current, frames, p, mtu, limit);
    StretchedNext(current, mtu, limit, c);
    StoryNext(frames, Flatten(sent) + current, p, mtu - HEADER, limit, c, p');
    assert Flatten(sent) + (current + [c]) == Flatten(sent) + current + [c];
    HistoryClose(packets, sent, current + [c], frames, p', mtu, limit);
  }

  lemma {:induction false} HistoryTakes(packets: seq<bytes>, sent: seq<seq<Chunk>>, current: seq<Chunk>,
                                        frames: seq<bytes>, p: Progress, mtu: nat, limit: int, f: bytes)
    requires History(packets, sent, current, frames, p, mtu, limit) && |f| < UINT16_LIMIT
    ensures History(packets, sent, current, frames + [f], p, mtu, limit)
  {
    HistoryOpen(packets, sent, current, frames, p, mtu, limit);
    StoryTakes(frames, Flatten(sent) + current, p, mtu - HEADER, limit, f);
    HistoryClose(packets, sent, current, frames + [f], p, mtu, limit);
  }

  lemma {:induction false} HistoryFlush(packets: seq<bytes>, sent: seq<seq<Chunk>>, current: seq<Chunk>,
                                        frames: seq<bytes>, p: Progress, mtu: nat, limit: int)
    requires History(packets, sent, current, frames, p, mtu, limit)
    requires current != [] && (forall c <- current :: c.Fits()) && |EncodeAll(current)| <= mtu
    ensures History(packets + [EncodeAll(current)], sent + [current], [], frames, p, mtu, limit)
  {
    HistoryOpen(packets, sent, current, frames, p, mtu, limit);
    PackedMore(packets, sent, mtu, limit, current);
    HistoryClose(packets + [EncodeAll(current)], sent + [current], [], frames, p, mtu, limit);
  }

  lemma {:induction false} HistoryFrames(packets: seq<bytes>, sent: seq<seq<Chunk>>, current: seq<Chunk>,
                                         frames: seq<bytes>, p: Progress, mtu: nat, limit: int)
    requires History(packets, sent, current, frames, p, mtu, limit)
    ensures AtMost(frames, UINT16_LIMIT - 1) && (p.count == 0 <==> p.pos == 0)
  {
    HistoryOpen(packets, sent, current, frames, p, mtu, limit);
  }

  class Disassembler {
    const outputMtu: nat
    const chunkMtu: int
    const latency: int
    var timerRunning: bool
    var inLen: int
    var input: bytes
    var inUsed: nat
    var out: array?<byte>
    var outUsed: nat
    var frameId: nat
    var packets: seq<bytes>
    // all frames taken so far, the chunks of the finished packets, and those of the packet under way
    ghost var frames: seq<bytes>
    ghost var sent: seq<seq<Chunk>>
    ghost var current: seq<Chunk>

    ghost predicate Configured() {
      outputMtu > HEADER && chunkMtu != 0
    }

    /** What has been written so far, and that it has got to p. */
    ghost predicate Wrote(p: Progress)
      reads this
    {
      Configured() && History(packets, sent, current, frames, p, outputMtu, chunkMtu)
    }

    /** The output packet under way holds the current chunks. */
    ghost predicate Filled()
      reads this, out
    {
      && (forall c <- current :: c.Fits())
      && out != null && outUsed <= outputMtu <= out.Length && out[..outUsed] == EncodeAll(current)
      && (current == [] <==> outUsed == 0)
    }

    /** The input packet is the frame under way, and something of it is left. */
    ghost predicate Taking(p: Progress)
      reads this
    {
      && |frames| == p.done + 1 && frames[p.done] == input && inLen == |input|
      && inUsed == p.pos && (inUsed < inLen || inUsed == inLen == 0)
    }

    /** Between calls: a pending frame waits for an output packet; a packet that is kept has room and a timer. */
    ghost predicate Between(p: Progress)
      reads this, out
    {
      && Wrote(p) && frameId == FrameId(p.done)
      && (if inLen < 0 then inLen == -1 && p.pos == 0 && |frames| == p.done else out == null && Taking(p))
      && (if out == null then current == [] else Filled() && outputMtu - outUsed > HEADER)
      && (timerRunning <==> out != null && outUsed > 0) && (timerRunning ==> latency >= 0)
    }

    ghost predicate Valid()
      reads this, out
    {
      exists p :: Between(p)
    }

    /**
     What a call that writes into the packet `buffer` adds to the log of packets `ps` with chunks `ss`, and to the
     chunks `cs` of the packet under way. The packet gains chunks; it is finished if nothing may wait (a negative
     latency) or there is no room for one more byte of data, and otherwise it goes on, with its timer running. A frame
     is left over only when the packet has no room.
     */
    ghost predicate Went(buffer: array?<byte>, ps: seq<bytes>, ss: seq<seq<Chunk>>, cs: seq<Chunk>)
      reads this
    {
      if out == null then
        && |packets| == |ps| + 1 && packets[..|ps|] == ps && |sent| == |ss| + 1 && sent[..|ss|] == ss
        && cs < sent[|ss|] && current == [] && !timerRunning
        && (latency < 0 || outputMtu - |packets[|ps|]| <= HEADER)
        && (inLen >= 0 ==> outputMtu - |packets[|ps|]| <= HEADER)
      else
        && out == buffer && packets == ps && sent == ss && cs < current && inLen == -1
        && latency >= 0 && timerRunning && (forall c <- current :: c.Fits()) && outUsed == |EncodeAll(current)| && outputMtu - outUsed > HEADER
    }

    /** FragmentProtoDisassembler_Init */
    constructor (outputMtu: nat, chunkMtu: int, latency: int)
      requires outputMtu > HEADER && chunkMtu != 0
      ensures Valid() && frames == [] && packets == [] && sent == [] && inLen == -1 && out == null
      ensures this.outputMtu == outputMtu && this.chunkMtu == chunkMtu && this.latency == latency
    {
      this.outputMtu := outputMtu;
      this.chunkMtu := chunkMtu;
      this.latency := latency;
      timerRunning := false;
      inLen := -1;
      input := [];
      inUsed := 0;
      out := null;
      outUsed := 0;
      frameId := 0;
      packets := [];
      frames := [];
      sent := [];
      current := [];
      new;
      HistoryClose(packets, sent, current, frames, Progress(0, 0, 0), outputMtu, chunkMtu);
      assert Between(Progress(0, 0, 0));
    }

    /** The memory copies of one round: header and data behind what is there. */
    method PutChunk(start: nat, isLast: bool, data: bytes)
      requires Filled() && outputMtu - outUsed >= HEADER + |data| && Chunk(frameId, start, isLast, data).Fits()
      modifies `outUsed, `current, out
      ensures Filled() && current == old(current) + [Chunk(frameId, start, isLast, data)]
      ensures outUsed == old(outUsed) + HEADER + |data|
    {
      ghost var c := Chunk(frameId, start, isLast, data);
      EncodeSnoc(current, c);
      PutBytes(Le16(frameId) + Le16(start) + Le16(|data|) + [if isLast then 1 else 0], data);
      current := current + [c];
    }

    method PutBytes(header: bytes, data: bytes)
      requires out != null && outUsed + |header| + |data| <= out.Length
      modifies `outUsed, out
      ensures outUsed == old(outUsed) + |header| + |data| && out[..outUsed] == old(out[..outUsed]) + (header + data)
    {
      CopyInto(out, outUsed, header);
      CopyInto(out, outUsed + |header|, data);
      outUsed := outUsed + |header| + |data|;
    }

    /** One round of the loop of write_chunks. */
    method WriteChunk(ghost p: Progress) returns (ghost p': Progress, ghost last: bool)
      requires Wrote(p) && Filled() && Taking(p) && frameId == FrameId(p.done)
      requires outputMtu - outUsed > HEADER && (chunkMtu < 0 && p.count >= 1 ==> outUsed == 0)
      modifies `inUsed, `outUsed, `current, out
      ensures Wrote(p') && Filled() && outUsed > 0 && (last <==> inUsed == inLen) && inUsed <= inLen
      ensures old(current) < current
      ensures last ==> p' == Progress(p.done + 1, 0, 0)
      ensures !last ==> Taking(p') && p'.done == p.done && inUsed > old(inUsed)
      ensures !last && chunkMtu < 0 ==> outputMtu - outUsed <= HEADER
    {
      var inAvail := inLen - inUsed;
      var outAvail := outputMtu - outUsed - HEADER;
      var chunkLen := if inAvail < outAvail then inAvail else outAvail;
      if chunkMtu > 0 {
        chunkLen := if chunkLen < chunkMtu then chunkLen else chunkMtu;
      }
      var data := input[inUsed..inUsed + chunkLen];
      last := chunkLen == inAvail;
      ghost var c := Chunk(frameId, inUsed, last, data);
      p' := if last then Progress(p.done + 1, 0, 0) else Progress(p.done, p.pos + chunkLen, p.count + 1);
      HistoryFrames(packets, sent, current, frames, p, outputMtu, chunkMtu);
      EncodeSnoc(current, c);
      HistoryChunk(packets, sent, current, frames, p, outputMtu, chunkMtu, c, p');
      PutChunk(inUsed, chunkLen == inAvail, data);
      inUsed := inUsed + chunkLen;
    }

    /** The do-while loop of write_chunks. */
    method WriteLoop(ghost p: Progress) returns (ghost p': Progress)
      requires Wrote(p) && Filled() && Taking(p) && frameId == FrameId(p.done)
      requires outputMtu - outUsed > HEADER && (chunkMtu < 0 && p.count >= 1 ==> outUsed == 0)
      modifies `inUsed, `outUsed, `current, out
      ensures Wrote(p') && Filled() && outUsed > 0 && inUsed <= inLen
      ensures old(current) < current
      ensures inUsed == inLen ==> p' == Progress(p.done + 1, 0, 0)
      ensures inUsed < inLen ==> Taking(p') && p'.done == p.done && outputMtu - outUsed <= HEADER
    {
      ghost var last := false;
      p' := p;
      var more := true;
      while more
        invariant Wrote(p') && Filled() && inUsed <= inLen && p'.done == (if last then p.done + 1 else p.done)
        invariant if last then inUsed == inLen && p' == Progress(p.done + 1, 0, 0) && !more else Taking(p')
        invariant old(current) <= current && (!more ==> old(current) < current)
        invariant more ==> outputMtu - outUsed > HEADER && (chunkMtu < 0 && p'.count >= 1 ==> outUsed == 0)
        invariant !more ==> outUsed > 0 && (!last ==> inUsed < inLen && outputMtu - outUsed <= HEADER)
        decreases if more then 1 + inLen - inUsed else 0
      {
        p', last := WriteChunk(p');
        more := inLen - inUsed > 0 && outputMtu - outUsed - HEADER > 0;
      }
    }

    /** Finishing the output packet. */
    method FlushOutput(ghost p: Progress)
      requires Wrote(p) && Filled() && outUsed > 0
      modifies `out, `packets, `sent, `current
      ensures Wrote(p) && out == null && current == []
      ensures packets == old(packets) + [old(out[..outUsed])] && sent == old(sent) + [old(current)]
    {
      assert |EncodeAll(current)| == outUsed;
      HistoryFlush(packets, sent, current, frames, p, outputMtu, chunkMtu);
      packets := packets + [out[..outUsed]];
      sent := sent + [current];
      current := [];
      out := null;
    }

    /** write_chunks */
    method WriteChunks(ghost p: Progress)
      requires Wrote(p) && Filled() && Taking(p) && frameId == FrameId(p.done)
      requires outputMtu - outUsed > HEADER && (p.count >= 1 ==> outUsed == 0)
      requires (timerRunning <==> outUsed > 0) && (timerRunning ==> latency >= 0)
      modifies this, out
      ensures Valid() && frames == old(frames) && (inLen == -1 || inLen == old(inLen)) && (inLen >= 0 ==> out == null)
      ensures Went(old(out), old(packets), old(sent), old(current))
    {
      ghost var p' := WriteLoop(p);
      if inLen - inUsed == 0 {
        inLen := -1;
        frameId := (frameId + 1) % UINT16_LIMIT;
      }
      if outputMtu - outUsed - HEADER <= 0 || latency < 0 {
        if latency >= 0 {
          timerRunning := false;
        }
        FlushOutput(p');
      } else {
        if !timerRunning {
          timerRunning := true;
        }
      }
      assert Between(p');
    }

    /** input_handler_send */
    method InputHandlerSend(data: bytes)
      requires Valid() && inLen == -1 && |data| < UINT16_LIMIT
      modifies this, out
      ensures Valid() && frames == old(frames) + [data] && (inLen == -1 || (inLen == |data| && out == null))
      ensures old(out) == null ==>
        inLen == |data| && packets == old(packets) && sent == old(sent) && current == old(current)
      ensures old(out) != null ==> Went(old(out), old(packets), old(sent), old(current))
    {
      ghost var p :| Between(p);
      HistoryTakes(packets, sent, current, frames, p, outputMtu, chunkMtu, data);
      HistoryFrames(packets, sent, current, frames, p, outputMtu, chunkMtu);
      inLen := |data|;
      input := data;
      inUsed := 0;
      frames := frames + [data];
      if out == null {
        assert Between(p);
        return;
      }
      WriteChunks(p);
    }

    /** output_handler_recv */
    method OutputHandlerRecv(data: array<byte>)
      requires Valid() && out == null && data.Length >= outputMtu
      modifies this, data
      ensures Valid() && frames == old(frames) && (inLen == -1 || (inLen == old(inLen) && out == null))
      ensures old(inLen) == -1 ==>
        && out == data && packets == old(packets) && sent == old(sent)
        && current == [] && outUsed == 0 && !timerRunning
      ensures old(inLen) != -1 ==> Went(data, old(packets), old(sent), [])
    {
      ghost var p :| Between(p);
      out := data;
      outUsed := 0;
      if inLen < 0 {
        assert Between(p);
        return;
      }
      WriteChunks(p);
    }

    /** timer_handler */
    method TimerHandler()
      requires Valid() && timerRunning
      modifies this
      ensures Valid() && frames == old(frames) && inLen == -1 && out == null
      ensures packets == old(packets) + [old(out[..outUsed])] && sent == old(sent) + [old(current)]
    {
      ghost var p :| Between(p);
      timerRunning := false;
      FlushOutput(p);
      assert Between(p);
    }
  }
}
