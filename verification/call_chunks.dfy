// From the ring to a call's chunks: what the whole loop emits for one call are
// the chunks of one assembler run, so each describes a slice of that call's frames.

module CallChunks {
  import opened Words
  import opened Audio
  import opened Chunker
  import opened Slices
  import HotLoop
  import opened Demux

  type Dequeued = (AudioFrame, uint64)

  /** A call's frames as ticks of its assembler, the closing flush coming after the last. */
  function Ticks(own: seq<Dequeued>, flushNs: Option<uint64>): (s: seq<Tick>)
    ensures |s| == |own|
  {
    seq(|own|, i requires 0 <= i < |own| => Tick(own[i].0, own[i].1, if i + 1 == |own| then flushNs else None))
  }

  /** The events of a run, with the call's id. */
  function Events(out: seq<Emitted>, c: uint32): (s: seq<ChunkEvent>)
    ensures |s| == |out|
  {
    seq(|out|, k requires 0 <= k < |out| => out[k].closed.event.(sessionId := c))
  }

  lemma EventsOfOneMore(out: seq<Emitted>, e: Option<Closed>, n: nat, c: uint32)
    ensures Events(Emit(out, e, n), c) == Events(out, c) + EventFor(e, c)
  {
  }

  /** A lone assembler takes its frames one after the other. */
  lemma {:induction false} LoneOneMore(cfg: ChunkerConfig, a: AssemblerState, own: seq<Dequeued>, x: Dequeued,
                                       c: uint32)
    ensures var (b, events) := Lone(cfg, a, own, c);
      var (z, e) := FrameStep(cfg, b, x.0, x.1);
      Lone(cfg, a, own + [x], c) == (z, events + EventFor(e, c))
    decreases |own|
  {
    hide FrameStep;
    if own == [] {
      assert ([] + [x])[1..] == [] && (own + [x])[0] == x;
      assert EventFor(FrameStep(cfg, a, x.0, x.1).1, c) + [] == [] + EventFor(FrameStep(cfg, a, x.0, x.1).1, c);
    } else {
      var (b, e) := FrameStep(cfg, a, own[0].0, own[0].1);
      var now, later := EventFor(e, c), Lone(cfg, b, own[1..], c);
      var last := EventFor(FrameStep(cfg, later.0, x.0, x.1).1, c);
      assert (own + [x])[0] == own[0] && (own + [x])[1..] == own[1..] + [x];
      LoneOneMore(cfg, b, own[1..], x, c);
      assert now + (later.1 + last) == now + later.1 + last;
    }
  }

  /** A run so far does not depend on what is still to come. */
  lemma {:induction false} TraceLooksBack(cfg: ChunkerConfig, a: seq<Tick>, b: seq<Tick>, n: nat)
    requires n <= |a| && n <= |b| && forall i :: 0 <= i < n ==> a[i] == b[i]
    ensures Trace(cfg, a, n) == Trace(cfg, b, n)
  {
    hide FeedFrame, FeedFlush;
    if n > 0 { TraceLooksBack(cfg, a, b, n - 1); }
  }

  /** The lone assembler of the loop and the assembler run of the slices are the same machine. */
  lemma {:induction false} LoneIsTrace(cfg: ChunkerConfig, own: seq<Dequeued>, c: uint32)
    ensures var p := Trace(cfg, Ticks(own, None), |own|);
      Lone(cfg, FRESH, own, c) == (p.state, Events(p.out, c))
  {
    hide FrameStep, Lone, Emit;
    if own == [] {
      LoneOfNothing(cfg, c);
    } else {
      var n, x := |own| - 1, own[|own| - 1];
      LoneIsTrace(cfg, own[..n], c);
      TraceLooksBack(cfg, Ticks(own[..n], None), Ticks(own, None), n);
      LoneOneMore(cfg, FRESH, own[..n], x, c);
      assert own == own[..n] + [x];
      var p := Trace(cfg, Ticks(own, None), n);
      EventsOfOneMore(p.out, FrameStep(cfg, p.state, x.0, x.1).1, n + 1, c);
    }
  }

  lemma LoneOfNothing(cfg: ChunkerConfig, c: uint32)
    ensures Lone(cfg, FRESH, [], c) == (FRESH, [])
  {
  }

  /** And with the closing flush. */
  lemma FlushedLoneIsTrace(cfg: ChunkerConfig, own: seq<Dequeued>, endNs: uint64, c: uint32)
    ensures var (a, events) := Lone(cfg, FRESH, own, c);
      events + EventFor(FlushStep(a, endNs).1, c) == Events(Trace(cfg, Ticks(own, Some(endNs)), |own|).out, c)
  {
    hide FrameStep, Lone, Emit;
    LoneIsTrace(cfg, own, c);
    if own != [] {
      var n := |own| - 1;
      TraceLooksBack(cfg, Ticks(own, None), Ticks(own, Some(endNs)), n);
      var p := FeedFrame(cfg, Trace(cfg, Ticks(own, None), n), Ticks(own, None)[n], n);
      assert Trace(cfg, Ticks(own, None), n + 1) == p;
      EventsOfOneMore(p.out, FlushStep(p.state, endNs).1, n + 1, c);
      NoEventMore(p.out, n + 1);
    }
  }

  lemma NoEventMore(out: seq<Emitted>, n: nat)
    ensures Emit(out, None, n) == out
  {
  }

  /** Everything the loop emits for a call it admitted, to the closing flush, are the chunks of one assembler run
      over that call's frames alone. */
  lemma CallsChunksAreOneRun(cfg: HotLoop.LoopConfig, max: nat, firstSweepNs: uint64, turns: seq<HotLoop.Turn>,
                             endNs: uint64, c: uint32)
    requires NoExpiry(cfg, Demux.Begin(max, firstSweepNs), turns)
    ensures var q, own := HotLoop.Run(cfg, Demux.Begin(max, firstSweepNs), turns), Own(cfg, turns, c);
      var events := Tagged(HotLoop.Finish(q, endNs).emitted, c);
      events == if c in q.table.dir then Events(Trace(cfg.chunker, Ticks(own, Some(endNs)), |own|).out, c) else []
  {
    hide FrameStep, FlushStep, Tagged, Lone, HotLoop.Run, Own, NoExpiry, HotLoop.Finish;
    Demultiplexed(cfg, max, firstSweepNs, turns, endNs, c);
    FlushedLoneIsTrace(cfg.chunker, Own(cfg, turns, c), endNs, c);
  }

  /** Event e of the call describes its frames s..b. */
  predicate DescribesOwn(own: seq<Dequeued>, s: nat, b: nat, e: ChunkEvent, c: uint32)
    requires s <= b <= |own|
  {
    && e.sessionId == c && e.frameCount == b - s
    && (s < b ==>
         && e.firstSeq == own[s].0.hdr.seqNo
         && e.lastSeq == own[b - 1].0.hdr.seqNo
         && e.tFirstFrameNs == own[s].0.hdr.tProduceNs
         && e.format == own[s].0.hdr.format)
  }

  /** Ring to event: whatever calls are interleaved, the k-th event of a call describes a contiguous slice of that
      call's own frames, beginning no earlier than where its event before ended. */
  lemma EventDescribesOwnFrames(cfg: HotLoop.LoopConfig, max: nat, firstSweepNs: uint64, turns: seq<HotLoop.Turn>,
                                endNs: uint64, c: uint32, k: nat)
    returns (before: nat, prev: nat, s: nat, b: nat)
    requires NoExpiry(cfg, Demux.Begin(max, firstSweepNs), turns) && |Own(cfg, turns, c)| < TWO_32
    requires k < |Tagged(HotLoop.Finish(HotLoop.Run(cfg, Demux.Begin(max, firstSweepNs), turns), endNs).emitted, c)|
    ensures var own := Own(cfg, turns, c);
      var events := Tagged(HotLoop.Finish(HotLoop.Run(cfg, Demux.Begin(max, firstSweepNs), turns), endNs).emitted, c);
      && prev <= s <= b <= |own| && DescribesOwn(own, s, b, events[k], c)
      && (k == 0 ==> prev == 0)
      && (0 < k ==> before <= prev && DescribesOwn(own, before, prev, events[k - 1], c))
  {
    hide FrameStep, Tagged, HotLoop.Run, Own, NoExpiry, HotLoop.Finish, Trace;
    CallsChunksAreOneRun(cfg, max, firstSweepNs, turns, endNs, c);
    var own := Own(cfg, turns, c);
    var input := Ticks(own, Some(endNs));
    var out := Trace(cfg.chunker, input, |input|).out;
    ChunkOfOwn(cfg.chunker, own, endNs, c, k);
    before, prev, s, b := 0, PrevEnd(out, k), Slices.Begin(out, k), out[k].end;
    if 0 < k {
      ChunkOfOwn(cfg.chunker, own, endNs, c, k - 1);
      before := Slices.Begin(out, k - 1);
    }
  }

  lemma ChunkOfOwn(cfg: ChunkerConfig, own: seq<Dequeued>, endNs: uint64, c: uint32, k: nat)
    requires |own| < TWO_32 && k < |Trace(cfg, Ticks(own, Some(endNs)), |own|).out|
    ensures var out := Trace(cfg, Ticks(own, Some(endNs)), |own|).out;
      && PrevEnd(out, k) <= Slices.Begin(out, k) <= out[k].end <= |own|
      && DescribesOwn(own, Slices.Begin(out, k), out[k].end, Events(out, c)[k], c)
  {
    hide Trace, Concat, EndsAt;
    ChunkIsItsSlice(cfg, Ticks(own, Some(endNs)), k);
  }
}
