/** A disassembler and an assembler at the two ends of an in-order, lossless link. */
module FragmentLink {
  import opened Bytes
  import opened Fragment
  import opened FragmentClock
  import opened FragmentStream
  import opened FragmentAssembler
  import opened FragmentDisassembler

  lemma {:induction false} ReachedStart(frames: seq<bytes>, before: seq<Chunk>, cs: seq<Chunk>, cap: nat)
    requires Reached(frames, before + cs).Some?
    ensures Reached(frames, before).Some?
    ensures Spread(frames, before + cs, cap) ==> Spread(frames, before, cap)
  {
    if cs == [] {
      assert before + cs == before;
    } else {
      assert (before + cs)[..|before + cs| - 1] == before + cs[..|cs| - 1];
      ReachedStart(frames, before, cs[..|cs| - 1], cap);
    }
  }

  /** Without a chunk limit, the number of slots that the protocol header computes is enough. */
  lemma {:induction false} EnoughChunks(d: Disassembler, longest: nat, numChunks: nat)
    requires d.Valid() && d.chunkMtu < 0 && AtMost(d.frames, longest)
    requires numChunks >= ChunkBound(d.outputMtu - HEADER, longest)
    ensures Few(d.frames, Flatten(d.sent), numChunks)
    ensures ChunkBound(d.outputMtu - HEADER, longest) <= MaxChunksForFrame(d.outputMtu, longest)
  {
    var p :| d.Between(p);
    HistoryOpen(d.packets, d.sent, d.current, d.frames, p, d.outputMtu, d.chunkMtu);
    var cap := d.outputMtu - HEADER;
    ReachedStart(d.frames, Flatten(d.sent), d.current, cap);
    SpreadIsFew(d.frames, Flatten(d.sent), cap, longest);
    BoundGrows(cap, 0, longest);
    FewGrows(d.frames, Flatten(d.sent), ChunkBound(cap, longest), numChunks);
  }

  lemma {:induction false} FewGrows(frames: seq<bytes>, cs: seq<Chunk>, a: nat, b: nat)
    requires Few(frames, cs, a) && a <= b
    ensures Few(frames, cs, b)
  {
    if cs != [] {
      FewGrows(frames, cs[..|cs| - 1], a, b);
    }
  }

  /** What a disassembler has sent cuts up its frames in order; all of them once nothing is held back. */
  lemma {:induction false} SentInOrder(d: Disassembler)
    requires d.Valid()
    ensures Packed(d.packets, d.sent, d.outputMtu, d.chunkMtu)
    ensures Reached(d.frames, Flatten(d.sent)).Some?
    ensures d.inLen < 0 && d.out == null ==> Reached(d.frames, Flatten(d.sent)).value == Progress(|d.frames|, 0, 0)
  {
    var p :| d.Between(p);
    HistoryOpen(d.packets, d.sent, d.current, d.frames, p, d.outputMtu, d.chunkMtu);
    ReachedStart(d.frames, Flatten(d.sent), d.current, 0);
    assert Flatten(d.sent) + [] == Flatten(d.sent);
  }

  /** The packets, one after the other. */
  method ReceiveAll(a: Assembler, packets: seq<bytes>, ghost sent: seq<seq<Chunk>>, mtu: nat, ghost limit: int)
    requires a.Valid() && a.inLen == -1 && a.output == [] && Packed(packets, sent, mtu, limit)
    modifies a, a.repr
    ensures a.Valid() && a.inLen == -1
    ensures Run(a.Cfg(), old(a.state), Events(sent)).0 == a.state
    ensures Run(a.Cfg(), old(a.state), Events(sent)).1 == a.output
  {
    ghost var cfg, s := a.Cfg(), a.state;
    for i := 0 to |packets|
      invariant a.Valid() && a.inLen == -1
      invariant Run(cfg, s, Events(sent[..i])).0 == a.state && Run(cfg, s, Events(sent[..i])).1 == a.output
    {
      ParseAllEncoded(sent[i]);
      RunSplit(cfg, s, Events(sent[..i]), Arrivals(sent[i]) + [PacketEnds]);
      EventsMore(sent, i);
      a.ReceivePacket(packets[i]);
    }
    assert sent[..|packets|] == sent;
  }

  lemma {:induction false} EventsMore(sent: seq<seq<Chunk>>, i: nat)
    requires i < |sent|
    ensures Events(sent[..i + 1]) == Events(sent[..i]) + (Arrivals(sent[i]) + [PacketEnds])
  {
    assert sent[..i + 1][..i] == sent[..i];
    assert sent[..i + 1][i] == sent[i];
  }

  /**
   The packets a disassembler has sent, given to an assembler that is big enough: it sends the frames, in
   order and unchanged, and all of them once the disassembler holds nothing back.
   */
  method Transfer(d: Disassembler, a: Assembler)
    requires d.Valid() && a.Valid() && a.inLen == -1 && a.output == [] && a.state.used == []
    requires AtMost(d.frames, a.outputMtu) && Few(d.frames, Flatten(d.sent), a.numChunks)
    modifies a, a.repr
    ensures a.Valid()
    ensures old(Reached(d.frames, Flatten(d.sent)).Some?)
    ensures a.output == old(d.frames)[..old(Reached(d.frames, Flatten(d.sent)).value.done)]
    ensures old(d.inLen < 0 && d.out == null) ==> a.output == old(d.frames)
  {
    SentInOrder(d);
    InOrderDelivers(a.Cfg(), a.state, d.sent, d.frames);
    ghost var frames := d.frames;
    ReceiveAll(a, d.packets, d.sent, d.outputMtu, d.chunkMtu);
    assert frames[..|frames|] == frames;
  }
}
