// What a whole run of the assembler emits: closed chunks are disjoint, ordered,
// contiguous slices of the input, and every field of an event describes its slice.

module Slices {
  import opened Words
  import opened Audio
  import opened Gate
  import opened Chunker

  /** One frame, the time it is handled, and possibly a flush before the next one. */
  datatype Tick = Tick(frame: AudioFrame, nowNs: uint64, flushNs: Option<uint64>)

  /** A chunk as it came out, and how many frames had been fed in by then. */
  datatype Emitted = Emitted(closed: Closed, end: nat)

  datatype Progress = Progress(state: AssemblerState, out: seq<Emitted>)

  function Emit(out: seq<Emitted>, c: Option<Closed>, end: nat): seq<Emitted> {
    if c.Some? then out + [Emitted(c.value, end)] else out
  }

  function FeedFrame(cfg: ChunkerConfig, p: Progress, t: Tick, n: nat): Progress {
    var (a, c) := FrameStep(cfg, p.state, t.frame, t.nowNs);
    Progress(a, Emit(p.out, c, n + 1))
  }

  function FeedFlush(p: Progress, t: Tick, n: nat): Progress {
    if t.flushNs.None? then p
    else
      var (a, c) := FlushStep(p.state, t.flushNs.value);
      Progress(a, Emit(p.out, c, n + 1))
  }

  /** The assembler and everything it emitted after the first n ticks. */
  function Trace(cfg: ChunkerConfig, input: seq<Tick>, n: nat): Progress
    requires n <= |input|
  {
    if n == 0 then Progress(FRESH, [])
    else
      var p := FeedFrame(cfg, Trace(cfg, input, n - 1), input[n - 1], n - 1);
      FeedFlush(p, input[n - 1], n - 1)
  }

  /** What the gate hears. */
  function Heard(cfg: ChunkerConfig, input: seq<Tick>): (s: seq<Sample>)
    ensures |s| == |input|
  {
    seq(|input|, i requires 0 <= i < |input| =>
      Sample(Loud(Normalised(cfg.gate), cfg.energyOf(input[i].frame)), Millis(input[i].nowNs)))
  }

  function GateAfter(cfg: ChunkerConfig, input: seq<Tick>, n: nat): GateState
    requires n <= |input|
  {
    Run(Normalised(cfg.gate), Heard(cfg, input), n)
  }

  function Frames(input: seq<Tick>): (s: seq<AudioFrame>)
    ensures |s| == |input|
  {
    seq(|input|, i requires 0 <= i < |input| => input[i].frame)
  }

  function Concat(fs: seq<AudioFrame>): seq<byte> {
    if fs == [] then [] else Concat(fs[..|fs| - 1]) + AudioOf(fs[|fs| - 1])
  }

  /** The frames whose audio is kept under a cap of so many bytes: each that still fits after those kept before it. */
  function Fit(cap: nat, fs: seq<AudioFrame>): (kept: seq<AudioFrame>)
    ensures |Concat(kept)| <= cap
  {
    if fs == [] then []
    else
      var before, last := Fit(cap, fs[..|fs| - 1]), fs[|fs| - 1];
      assert (before + [last])[..|before|] == before;
      if |Concat(before)| + last.hdr.byteLen <= cap then before + [last] else before
  }

  function Fitting(cap: nat, fs: seq<AudioFrame>): (audio: seq<byte>)
    ensures |audio| <= cap
  {
    Concat(Fit(cap, fs))
  }

  /** All of a slice's audio is kept exactly when all of it fits. */
  lemma {:induction false} AllIsKeptExactlyWhen(cap: nat, fs: seq<AudioFrame>)
    ensures Fitting(cap, fs) == Concat(fs) <==> |Concat(fs)| <= cap
    ensures |Concat(fs)| <= cap ==> Fit(cap, fs) == fs
  {
    if fs != [] {
      AllIsKeptExactlyWhen(cap, fs[..|fs| - 1]);
      assert fs == fs[..|fs| - 1] + [fs[|fs| - 1]];
    }
  }

  lemma OneMoreFits(cap: nat, fs: seq<AudioFrame>, f: AudioFrame)
    ensures Fitting(cap, fs + [f]) ==
      if |Fitting(cap, fs)| + f.hdr.byteLen <= cap then Fitting(cap, fs) + AudioOf(f) else Fitting(cap, fs)
  {
    assert (fs + [f])[..|fs|] == fs;
    assert (Fit(cap, fs) + [f])[..|Fit(cap, fs)|] == Fit(cap, fs);
  }

  /** So audio past the cap is not simply cut: a smaller frame can follow one that was skipped. */
  lemma SmallerFrameFollowsSkipped(cap: nat, f: AudioFrame, g: AudioFrame, h: AudioFrame)
    requires f.hdr.byteLen + h.hdr.byteLen <= cap < f.hdr.byteLen + g.hdr.byteLen
    ensures Fitting(cap, [f, g, h]) == AudioOf(f) + AudioOf(h)
  {
    hide Fitting;
    NothingFits(cap);
    OneMoreFits(cap, [], f);
    OneMoreFits(cap, [f], g);
    OneMoreFits(cap, [f, g], h);
    assert [] + [f] == [f] && [f] + [g] == [f, g] && [f, g] + [h] == [f, g, h];
    assert [] + AudioOf(f) == AudioOf(f);
  }

  lemma NothingFits(cap: nat)
    ensures Fitting(cap, []) == []
  {
  }

  /** Frames lost just before frames lo..hi of the input. */
  function Lost(input: seq<Tick>, lo: nat, hi: nat): nat
    requires 1 <= lo && hi <= |input|
    decreases hi
  {
    if hi <= lo then 0
    else Lost(input, lo, hi - 1) + GapAfter(input[hi - 2].frame.hdr.seqNo, input[hi - 1].frame.hdr.seqNo)
  }

  // ------------------------------------------------------ the open chunk

  /** The chunk fields describe exactly the frames of fs. */
  ghost predicate Holds(cfg: ChunkerConfig, a: AssemblerState, fs: seq<AudioFrame>) {
    && a.frameCount == |fs|
    && (a.haveFirst <==> fs != [])
    && (fs != [] ==>
         && a.firstSeq == fs[0].hdr.seqNo
         && a.lastSeq == fs[|fs| - 1].hdr.seqNo
         && a.tFirstFrameNs == fs[0].hdr.tProduceNs
         && a.format == fs[0].hdr.format)
    && (fs == [] ==> a.firstSeq == 0 && a.lastSeq == 0 && a.tFirstFrameNs == a.tSpeechStartNs)
    && a.buffer == Fitting(cfg.maxChunkBytes, fs)
  }

  lemma AppendHolds(cfg: ChunkerConfig, a: AssemblerState, fs: seq<AudioFrame>, f: AudioFrame)
    requires Holds(cfg, a, fs) && |fs| + 1 < TWO_32
    ensures Holds(cfg, Append(cfg, a, f), fs + [f])
  {
    hide Fitting;
    OneMoreFits(cfg.maxChunkBytes, fs, f);
  }

  lemma {:induction false} AppendAllHolds(cfg: ChunkerConfig, a: AssemblerState, fs: seq<AudioFrame>)
    requires Holds(cfg, a, []) && |fs| < TWO_32
    ensures Holds(cfg, AppendAll(cfg, a, fs), fs)
    ensures AppendAll(cfg, a, fs).gapFrames == a.gapFrames
    ensures AppendAll(cfg, a, fs).lastSeqSeen == a.lastSeqSeen
    ensures AppendAll(cfg, a, fs).nextChunkId == a.nextChunkId
    ensures AppendAll(cfg, a, fs).tSpeechStartNs == a.tSpeechStartNs
  {
    hide Holds, Append;
    AppendAllKeeps(cfg, a, fs);
    if fs != [] {
      AppendAllHolds(cfg, a, fs[..|fs| - 1]);
      AppendHolds(cfg, AppendAll(cfg, a, fs[..|fs| - 1]), fs[..|fs| - 1], fs[|fs| - 1]);
      assert fs[..|fs| - 1] + [fs[|fs| - 1]] == fs;
    }
  }

  // ------------------------------------------------------ the invariant

  function PrevEnd(out: seq<Emitted>, k: nat): nat
    requires k <= |out|
  {
    if k == 0 then 0 else out[k - 1].end
  }

  /** Chunk k picks up where a full-length one was cut. */
  predicate Resumes(out: seq<Emitted>, k: nat)
    requires k <= |out|
  {
    k > 0 && out[k - 1].closed.event.reason == MaxLength
  }

  /** The chunk starting at frame s was opened by onset at frame o, with as much pre-roll as there is. */
  ghost predicate OpenedBy(cfg: ChunkerConfig, input: seq<Tick>, prev: nat, s: nat, o: nat, end: nat)
  {
    && prev <= s <= o < end <= |input|
    && OnsetAt(Normalised(cfg.gate), Heard(cfg, input), o)
    && o - s == Min(cfg.preRollFrames, o - prev)
  }

  /** Opened by onset at frame o, at that frame's time, counting losses from then on. */
  ghost predicate OpenedAt(cfg: ChunkerConfig, input: seq<Tick>, prev: nat, s: nat, o: nat, end: nat,
                           gaps: nat, startNs: uint64)
  {
    && OpenedBy(cfg, input, prev, s, o, end)
    && gaps == Lost(input, o + 1, end) % TWO_32
    && startNs == input[o].nowNs
  }

  /** Where and when the chunk covering s..end began, and how many losses it has counted. */
  ghost predicate Begins(cfg: ChunkerConfig, input: seq<Tick>, out: seq<Emitted>, k: nat,
                         s: nat, end: nat, gaps: nat, startNs: uint64)
    requires k <= |out|
  {
    if Resumes(out, k) then
      s == PrevEnd(out, k) && 1 <= s <= end <= |input|
      && gaps == Lost(input, s, end) % TWO_32 && startNs == input[s - 1].nowNs
    else
      exists o: nat :: OpenedAt(cfg, input, PrevEnd(out, k), s, o, end, gaps, startNs)
  }

  /** The event's closing time is that of the last frame it covers, or of the flush after it. */
  predicate EndsAt(t: Tick, e: ChunkEvent) {
    if e.reason == StreamEnd then t.flushNs == Some(e.tEndpointNs) else e.tEndpointNs == t.nowNs
  }

  /** Event k of the output describes a slice of the input. */
  ghost predicate Described(cfg: ChunkerConfig, input: seq<Tick>, out: seq<Emitted>, k: nat)
    requires k < |out|
  {
    var e, b := out[k].closed.event, out[k].end;
    && PrevEnd(out, k) + e.frameCount <= b <= |input|
    && 0 < b && EndsAt(input[b - 1], e)
    && e.chunkId == k
    && DescribesFrames(cfg, out[k].closed, Frames(input)[b - e.frameCount..b])
    && Begins(cfg, input, out, k, b - e.frameCount, b, e.droppedFrames, e.tSpeechStartNs)
    && (e.reason == Hangover ==> e.frameCount > 0 && !GateAfter(cfg, input, b).speaking)
    && (e.reason == MaxLength ==> e.frameCount > 0 && GateAfter(cfg, input, b).speaking)
  }

  ghost predicate DescribesFrames(cfg: ChunkerConfig, c: Closed, fs: seq<AudioFrame>) {
    && c.event.frameCount == |fs|
    && (fs != [] ==>
         && c.event.firstSeq == fs[0].hdr.seqNo
         && c.event.lastSeq == fs[|fs| - 1].hdr.seqNo
         && c.event.tFirstFrameNs == fs[0].hdr.tProduceNs
         && c.event.format == fs[0].hdr.format)
    && (fs == [] ==>
         c.event.firstSeq == 0 && c.event.lastSeq == 0 && c.event.tFirstFrameNs == c.event.tSpeechStartNs)
    && c.event.byteCount == |c.audio| % TWO_32
    && c.audio == Fitting(cfg.maxChunkBytes, fs)
  }

  /** What the assembler remembers whether or not a chunk is open. */
  ghost predicate InStep(cfg: ChunkerConfig, input: seq<Tick>, n: nat, a: AssemblerState)
    requires n <= |input|
  {
    && a.gate == GateAfter(cfg, input, n)
    && a.lastSeqSeen == (if n == 0 then None else Some(input[n - 1].frame.hdr.seqNo))
  }

  ghost predicate Tracked(cfg: ChunkerConfig, input: seq<Tick>, n: nat, p: Progress)
    requires n <= |input|
  {
    var a, k := p.state, |p.out|;
    && InStep(cfg, input, n, a)
    && a.nextChunkId == k
    && PrevEnd(p.out, k) <= n
    && (forall j :: 0 <= j < k ==> Described(cfg, input, p.out, j))
    && (if a.active then OpenPart(cfg, input, n, p.out, a) else IdlePart(cfg, input, n, p.out, a))
  }

  /** The open chunk holds the frames from s on. */
  ghost predicate OpenFrom(cfg: ChunkerConfig, input: seq<Tick>, n: nat, out: seq<Emitted>, a: AssemblerState, s: nat)
    requires n <= |input|
  {
    && a.preRoll == []
    && PrevEnd(out, |out|) <= s <= n
    && Holds(cfg, a, Frames(input)[s..n])
    && Begins(cfg, input, out, |out|, s, n, a.gapFrames, a.tSpeechStartNs)
  }

  ghost predicate OpenPart(cfg: ChunkerConfig, input: seq<Tick>, n: nat, out: seq<Emitted>, a: AssemblerState)
    requires n <= |input|
  {
    a.frameCount <= n && OpenFrom(cfg, input, n, out, a, n - a.frameCount)
  }

  ghost predicate IdlePart(cfg: ChunkerConfig, input: seq<Tick>, n: nat, out: seq<Emitted>, a: AssemblerState)
    requires n <= |input|
  {
    && !Resumes(out, |out|)
    && PrevEnd(out, |out|) <= n
    && a.preRoll == LastOf(Frames(input)[PrevEnd(out, |out|)..n], cfg.preRollFrames)
  }

  // ------------------------------------------------------ a frame arrives

  function PlacedAt(cfg: ChunkerConfig, input: seq<Tick>, n: nat, a: AssemblerState): AssemblerState
    requires n < |input|
  {
    Placed(cfg, a, input[n].frame, input[n].nowNs)
  }

  /** The state just before the frame is placed: sequence number noted, gate stepped. */
  function Noted(cfg: ChunkerConfig, input: seq<Tick>, n: nat, a: AssemblerState): AssemblerState
    requires n < |input|
  {
    NoteSeq(a, input[n].frame.hdr.seqNo).(gate := GateAfter(cfg, input, n + 1))
  }

  lemma PlacedCases(cfg: ChunkerConfig, input: seq<Tick>, n: nat, a: AssemblerState)
    requires n < |input| && InStep(cfg, input, n, a)
    ensures var b, c, f := PlacedAt(cfg, input, n, a), Noted(cfg, input, n, a), input[n].frame;
      if a.active then b == Append(cfg, c, f)
      else if OnsetAt(Normalised(cfg.gate), Heard(cfg, input), n) then
        b == Append(cfg, AppendAll(cfg, OpenChunk(c, input[n].nowNs), a.preRoll).(preRoll := []), f)
      else b == c.(preRoll := LastOf(a.preRoll + [f], cfg.preRollFrames))
  {
  }

  lemma PlacedBasics(cfg: ChunkerConfig, input: seq<Tick>, n: nat, a: AssemblerState)
    requires n < |input| && InStep(cfg, input, n, a)
    ensures var b := PlacedAt(cfg, input, n, a);
      && InStep(cfg, input, n + 1, b)
      && b.nextChunkId == a.nextChunkId
      && (b.active <==> a.active || OnsetAt(Normalised(cfg.gate), Heard(cfg, input), n))
  {
    PlacedCases(cfg, input, n, a);
    AppendAllKeeps(cfg, OpenChunk(Noted(cfg, input, n, a), input[n].nowNs), a.preRoll);
  }

  lemma {:induction false} AppendAllKeeps(cfg: ChunkerConfig, a: AssemblerState, fs: seq<AudioFrame>)
    ensures AppendAll(cfg, a, fs).gapFrames == a.gapFrames
    ensures AppendAll(cfg, a, fs).lastSeqSeen == a.lastSeqSeen
    ensures AppendAll(cfg, a, fs).nextChunkId == a.nextChunkId
    ensures AppendAll(cfg, a, fs).tSpeechStartNs == a.tSpeechStartNs
  {
    if fs != [] { AppendAllKeeps(cfg, a, fs[..|fs| - 1]); }
  }

  lemma OneMoreFrame(input: seq<Tick>, s: nat, n: nat)
    requires s <= n < |input|
    ensures Frames(input)[s..n + 1] == Frames(input)[s..n] + [input[n].frame]
  {
    var fs := Frames(input);
    assert fs[n] == input[n].frame;
    assert fs[s..n + 1] == fs[s..n] + [fs[n]];
  }

  /** The frame is quiet, or not yet onset: it goes to the pre-roll. */
  lemma TrackWaiting(cfg: ChunkerConfig, input: seq<Tick>, n: nat, out: seq<Emitted>, a: AssemblerState)
    requires n < |input| && InStep(cfg, input, n, a) && IdlePart(cfg, input, n, out, a)
    requires !a.active && !OnsetAt(Normalised(cfg.gate), Heard(cfg, input), n)
    ensures IdlePart(cfg, input, n + 1, out, PlacedAt(cfg, input, n, a))
  {
    PlacedCases(cfg, input, n, a);
    var prev := PrevEnd(out, |out|);
    OneMoreFrame(input, prev, n);
  }

  lemma RolledHolds(cfg: ChunkerConfig, blank: AssemblerState, pre: seq<AudioFrame>, f: AudioFrame)
    requires Holds(cfg, blank, []) && |pre| + 1 < TWO_32
    ensures var b := Append(cfg, AppendAll(cfg, blank, pre).(preRoll := []), f);
      && Holds(cfg, b, pre + [f]) && b.preRoll == []
      && b.gapFrames == blank.gapFrames && b.tSpeechStartNs == blank.tSpeechStartNs
  {
    hide Fitting, Append, AppendAll;
    var rolled := AppendAll(cfg, blank, pre).(preRoll := []);
    AppendAllHolds(cfg, blank, pre);
    AppendHolds(cfg, rolled, pre, f);
    AppendAllKeeps(cfg, blank, pre);
    AppendKeepsStart(cfg, rolled, f);
  }

  /** Onset: the pre-roll and the frame itself become the open chunk. */
  lemma OnsetOpens(cfg: ChunkerConfig, input: seq<Tick>, n: nat, out: seq<Emitted>, a: AssemblerState,
                   blank: AssemblerState)
    requires n < |input| < TWO_32 && IdlePart(cfg, input, n, out, a)
    requires OnsetAt(Normalised(cfg.gate), Heard(cfg, input), n)
    requires Holds(cfg, blank, []) && blank.gapFrames == 0 && blank.tSpeechStartNs == input[n].nowNs
    ensures var b := Append(cfg, AppendAll(cfg, blank, a.preRoll).(preRoll := []), input[n].frame);
      OpenFrom(cfg, input, n + 1, out, b, n - |a.preRoll|)
  {
    hide Holds, Append, AppendAll, OnsetAt, Lost, OpenedBy;
    var f, pre, s := input[n].frame, a.preRoll, n - |a.preRoll|;
    assert pre == Frames(input)[s..n];
    OneMoreFrame(input, s, n);
    RolledHolds(cfg, blank, pre, f);
    NothingLostYet(cfg, input, PrevEnd(out, |out|), s, n);
  }

  lemma NothingLostYet(cfg: ChunkerConfig, input: seq<Tick>, prev: nat, s: nat, n: nat)
    requires prev <= s <= n < |input| && n - s == Min(cfg.preRollFrames, n - prev)
    requires OnsetAt(Normalised(cfg.gate), Heard(cfg, input), n)
    ensures OpenedAt(cfg, input, prev, s, n, n + 1, 0, input[n].nowNs)
  {
  }

  lemma Add32Sum(x: nat, gap: nat)
    ensures Add32(x % TWO_32, gap) == (x + gap) % TWO_32
  {
  }

  lemma LostExtends(input: seq<Tick>, lo: nat, n: nat)
    requires 1 <= lo <= n < |input|
    ensures Lost(input, lo, n + 1) % TWO_32 ==
      Add32(Lost(input, lo, n) % TWO_32, GapAfter(input[n - 1].frame.hdr.seqNo, input[n].frame.hdr.seqNo))
  {
    Add32Sum(Lost(input, lo, n), GapAfter(input[n - 1].frame.hdr.seqNo, input[n].frame.hdr.seqNo));
  }

  lemma BeginsExtends(cfg: ChunkerConfig, input: seq<Tick>, out: seq<Emitted>, s: nat, n: nat, gaps: uint32,
                      startNs: uint64)
    requires 0 < n < |input| && Begins(cfg, input, out, |out|, s, n, gaps, startNs)
    ensures Begins(cfg, input, out, |out|, s, n + 1,
                   Add32(gaps, GapAfter(input[n - 1].frame.hdr.seqNo, input[n].frame.hdr.seqNo)), startNs)
  {
    if Resumes(out, |out|) {
      LostExtends(input, s, n);
    } else {
      var o: nat :| OpenedAt(cfg, input, PrevEnd(out, |out|), s, o, n, gaps, startNs);
      LostExtends(input, o + 1, n);
      assert OpenedAt(cfg, input, PrevEnd(out, |out|), s, o, n + 1,
                      Add32(gaps, GapAfter(input[n - 1].frame.hdr.seqNo, input[n].frame.hdr.seqNo)), startNs);
    }
  }

  /** A frame joins the open chunk; c is the assembler with the frame's loss, if any, already counted. */
  lemma OpenAppends(cfg: ChunkerConfig, input: seq<Tick>, n: nat, out: seq<Emitted>, a: AssemblerState,
                    c: AssemblerState, s: nat)
    requires 0 < n < |input| < TWO_32 && OpenFrom(cfg, input, n, out, a, s)
    requires c == a.(gate := c.gate, lastSeqSeen := c.lastSeqSeen, gapFrames :=
      Add32(a.gapFrames, GapAfter(input[n - 1].frame.hdr.seqNo, input[n].frame.hdr.seqNo)))
    ensures OpenFrom(cfg, input, n + 1, out, Append(cfg, c, input[n].frame), s)
  {
    hide Begins, Concat, Fitting, Holds;
    BeginsExtends(cfg, input, out, s, n, a.gapFrames, a.tSpeechStartNs);
    NotingHolds(cfg, a, c, Frames(input)[s..n]);
    AppendKeepsStart(cfg, c, input[n].frame);
    OneMoreFrame(input, s, n);
    AppendHolds(cfg, c, Frames(input)[s..n], input[n].frame);
  }

  lemma NotingHolds(cfg: ChunkerConfig, a: AssemblerState, c: AssemblerState, fs: seq<AudioFrame>)
    requires Holds(cfg, a, fs)
    requires c == a.(gate := c.gate, lastSeqSeen := c.lastSeqSeen, gapFrames := c.gapFrames)
    ensures Holds(cfg, c, fs)
  {
  }

  lemma AppendKeepsStart(cfg: ChunkerConfig, a: AssemblerState, f: AudioFrame)
    ensures var b := Append(cfg, a, f);
      b.gapFrames == a.gapFrames && b.tSpeechStartNs == a.tSpeechStartNs && b.preRoll == a.preRoll
  {
  }

  lemma OpenFromIsOpenPart(cfg: ChunkerConfig, input: seq<Tick>, n: nat, out: seq<Emitted>, a: AssemblerState, s: nat)
    requires n <= |input| && OpenFrom(cfg, input, n, out, a, s)
    ensures OpenPart(cfg, input, n, out, a) && a.frameCount == n - s
  {
  }

  lemma OpenImpliesFed(cfg: ChunkerConfig, input: seq<Tick>, n: nat, out: seq<Emitted>, a: AssemblerState, s: nat)
    requires n <= |input| && OpenFrom(cfg, input, n, out, a, s)
    ensures 0 < n
  {
  }

  lemma BlankHolds(cfg: ChunkerConfig, c: AssemblerState, nowNs: uint64)
    ensures Holds(cfg, OpenChunk(c, nowNs), []) && OpenChunk(c, nowNs).gapFrames == 0
    ensures OpenChunk(c, nowNs).tSpeechStartNs == nowNs
  {
  }

  /** The open or idle part after the frame, from the part before it. */
  lemma PartPlaced(cfg: ChunkerConfig, input: seq<Tick>, n: nat, out: seq<Emitted>, a: AssemblerState,
                   b: AssemblerState)
    requires n < |input| < TWO_32 && InStep(cfg, input, n, a)
    requires if a.active then OpenPart(cfg, input, n, out, a) else IdlePart(cfg, input, n, out, a)
    requires b == PlacedAt(cfg, input, n, a)
    ensures if b.active then OpenPart(cfg, input, n + 1, out, b) && b.frameCount > 0
            else IdlePart(cfg, input, n + 1, out, b)
  {
    hide PlacedAt, Holds, Begins, Append, AppendAll, OpenFrom;
    var c := Noted(cfg, input, n, a);
    PlacedBasics(cfg, input, n, a);
    PlacedCases(cfg, input, n, a);
    BlankHolds(cfg, c, input[n].nowNs);
    if a.active {
      OpenImpliesFed(cfg, input, n, out, a, n - a.frameCount);
      OpenAppends(cfg, input, n, out, a, c, n - a.frameCount);
      OpenFromIsOpenPart(cfg, input, n + 1, out, b, n - a.frameCount);
    } else if OnsetAt(Normalised(cfg.gate), Heard(cfg, input), n) {
      OnsetOpens(cfg, input, n, out, a, OpenChunk(c, input[n].nowNs));
      OpenFromIsOpenPart(cfg, input, n + 1, out, b, n - |a.preRoll|);
    } else {
      TrackWaiting(cfg, input, n, out, a);
    }
  }

  lemma TrackPlaced(cfg: ChunkerConfig, input: seq<Tick>, n: nat, p: Progress)
    requires n < |input| < TWO_32 && Tracked(cfg, input, n, p)
    ensures Tracked(cfg, input, n + 1, p.(state := PlacedAt(cfg, input, n, p.state)))
    ensures var b := PlacedAt(cfg, input, n, p.state); b.active ==> b.frameCount > 0
  {
    var b := PlacedAt(cfg, input, n, p.state);
    PlacedBasics(cfg, input, n, p.state);
    PartPlaced(cfg, input, n, p.out, p.state, b);
  }

  // ------------------------------------------------------ a chunk closes

  lemma DescribedStays(cfg: ChunkerConfig, input: seq<Tick>, out: seq<Emitted>, e: Emitted, j: nat)
    requires j < |out| && Described(cfg, input, out, j)
    ensures Described(cfg, input, out + [e], j)
  {
    hide OpenedAt, Lost, DescribesFrames, GateAfter, EndsAt;
    assert PrevEnd(out + [e], j) == PrevEnd(out, j) && Resumes(out + [e], j) == Resumes(out, j);
  }

  lemma BeginsStays(cfg: ChunkerConfig, input: seq<Tick>, out: seq<Emitted>, e: Emitted, s: nat, end: nat, gaps: nat,
                    startNs: uint64)
    requires Begins(cfg, input, out, |out|, s, end, gaps, startNs)
    ensures Begins(cfg, input, out + [e], |out|, s, end, gaps, startNs)
    ensures PrevEnd(out + [e], |out|) == PrevEnd(out, |out|)
  {
    hide OpenedAt, Lost;
    assert PrevEnd(out + [e], |out|) == PrevEnd(out, |out|) && Resumes(out + [e], |out|) == Resumes(out, |out|);
  }

  lemma EventDescribes(cfg: ChunkerConfig, a: AssemblerState, fs: seq<AudioFrame>, reason: CloseReason, nowNs: uint64)
    requires Holds(cfg, a, fs)
    ensures DescribesFrames(cfg, Closed(CloseEvent(a, reason, nowNs), a.buffer), fs)
  {
    hide Fitting;
  }

  /** The event that closes the open chunk describes it. */
  lemma ClosedIsDescribed(cfg: ChunkerConfig, input: seq<Tick>, n: nat, p: Progress, reason: CloseReason, nowNs: uint64)
    requires n <= |input| && Tracked(cfg, input, n, p) && p.state.active && |p.out| + 1 < TWO_64
    requires reason == Hangover ==> p.state.frameCount > 0 && !p.state.gate.speaking
    requires reason == MaxLength ==> p.state.frameCount > 0 && p.state.gate.speaking
    requires 0 < n && if reason == StreamEnd then input[n - 1].flushNs == Some(nowNs) else input[n - 1].nowNs == nowNs
    ensures Described(cfg, input, p.out + [Emitted(Closed(CloseEvent(p.state, reason, nowNs), p.state.buffer), n)],
        |p.out|)
  {
    hide Begins, Holds, DescribesFrames, GateAfter, IdlePart;
    var a, s := p.state, n - p.state.frameCount;
    var e := Emitted(Closed(CloseEvent(a, reason, nowNs), a.buffer), n);
    EventDescribes(cfg, a, Frames(input)[s..n], reason, nowNs);
    BeginsStays(cfg, input, p.out, e, s, n, a.gapFrames, a.tSpeechStartNs);
  }

  lemma TrackClosed(cfg: ChunkerConfig, input: seq<Tick>, n: nat, p: Progress, reason: CloseReason, nowNs: uint64)
    requires n <= |input| && Tracked(cfg, input, n, p) && p.state.active && |p.out| + 1 < TWO_64
    requires reason == Hangover ==> p.state.frameCount > 0 && !p.state.gate.speaking
    requires reason == MaxLength ==> p.state.frameCount > 0 && p.state.gate.speaking
    requires 0 < n && if reason == StreamEnd then input[n - 1].flushNs == Some(nowNs) else input[n - 1].nowNs == nowNs
    ensures var closed := CloseChunk(p.state);
      Tracked(cfg, input, n, Progress(if reason == MaxLength then OpenChunk(closed, nowNs) else closed,
        p.out + [Emitted(Closed(CloseEvent(p.state, reason, nowNs), p.state.buffer), n)]))
  {
    hide Described, Holds, GateAfter;
    var e := Emitted(Closed(CloseEvent(p.state, reason, nowNs), p.state.buffer), n);
    BlankHolds(cfg, CloseChunk(p.state), nowNs);
    ClosedIsDescribed(cfg, input, n, p, reason, nowNs);
    forall j | 0 <= j < |p.out| ensures Described(cfg, input, p.out + [e], j) {
      DescribedStays(cfg, input, p.out, e, j);
    }
    assert Frames(input)[n..n] == [];
  }

  lemma TrackFrame(cfg: ChunkerConfig, input: seq<Tick>, n: nat, p: Progress)
    requires n < |input| < TWO_32 && Tracked(cfg, input, n, p) && |p.out| + 1 < TWO_64
    ensures Tracked(cfg, input, n + 1, FeedFrame(cfg, p, input[n], n))
  {
    hide Tracked;
    TrackPlaced(cfg, input, n, p);
    var q := p.(state := PlacedAt(cfg, input, n, p.state));
    if q.state.active && !q.state.gate.speaking {
      TrackClosed(cfg, input, n + 1, q, Hangover, input[n].nowNs);
    } else if q.state.active && Millis(Sub64(input[n].nowNs, q.state.tSpeechStartNs)) >= cfg.maxChunkMs {
      TrackClosed(cfg, input, n + 1, q, MaxLength, input[n].nowNs);
    }
  }

  lemma TrackFlush(cfg: ChunkerConfig, input: seq<Tick>, n: nat, p: Progress)
    requires n < |input| && Tracked(cfg, input, n + 1, p) && |p.out| + 1 < TWO_64
    ensures Tracked(cfg, input, n + 1, FeedFlush(p, input[n], n))
  {
    hide Tracked;
    if input[n].flushNs.Some? && p.state.active {
      TrackClosed(cfg, input, n + 1, p, StreamEnd, input[n].flushNs.value);
    }
  }

  // ------------------------------------------------------ whole runs

  lemma TrackStart(cfg: ChunkerConfig, input: seq<Tick>)
    ensures Tracked(cfg, input, 0, Progress(FRESH, []))
  {
  }

  lemma AtMostTwoPerTick(cfg: ChunkerConfig, input: seq<Tick>, p: Progress, n: nat)
    requires n < |input|
    ensures |FeedFrame(cfg, p, input[n], n).out| <= |p.out| + 1
    ensures |FeedFlush(p, input[n], n).out| <= |p.out| + 1
  {
    hide Placed;
  }

  /** After every tick of every run, every chunk emitted so far describes its slice of the input. */
  lemma {:induction false} EveryRunTracked(cfg: ChunkerConfig, input: seq<Tick>, n: nat)
    requires n <= |input| < TWO_32
    ensures Tracked(cfg, input, n, Trace(cfg, input, n)) && |Trace(cfg, input, n).out| <= 2 * n
  {
    hide Tracked, FeedFrame, FeedFlush;
    if n == 0 {
      TrackStart(cfg, input);
    } else {
      var p := Trace(cfg, input, n - 1);
      var q := FeedFrame(cfg, p, input[n - 1], n - 1);
      EveryRunTracked(cfg, input, n - 1);
      AtMostTwoPerTick(cfg, input, p, n - 1);
      AtMostTwoPerTick(cfg, input, q, n - 1);
      TrackFrame(cfg, input, n - 1, p);
      TrackFlush(cfg, input, n - 1, q);
    }
  }

  /** First frame of chunk k, read off its own event. */
  function Begin(out: seq<Emitted>, k: nat): int
    requires k < |out|
  {
    out[k].end - out[k].closed.event.frameCount
  }

  /** Chunks never overlap and come out in order; only a flush right after a full-length cut yields an empty one. */
  lemma ChunksAreDisjointSlices(cfg: ChunkerConfig, input: seq<Tick>, j: nat, k: nat)
    requires |input| < TWO_32
    requires j < k < |Trace(cfg, input, |input|).out|
    ensures var out := Trace(cfg, input, |input|).out;
      && 0 <= Begin(out, j) <= out[j].end <= Begin(out, k) <= out[k].end <= |input|
      && out[j].closed.event.chunkId < out[k].closed.event.chunkId
  {
    hide Trace, InStep, OpenPart, IdlePart, Begins, DescribesFrames;
    EveryRunTracked(cfg, input, |input|);
    DisjointFrom(cfg, input, Trace(cfg, input, |input|), j, k);
  }

  lemma {:induction false} DisjointFrom(cfg: ChunkerConfig, input: seq<Tick>, p: Progress, j: nat, k: nat)
    requires Tracked(cfg, input, |input|, p) && j < k < |p.out|
    ensures 0 <= Begin(p.out, j) <= p.out[j].end <= Begin(p.out, k) <= p.out[k].end <= |input|
    ensures p.out[j].closed.event.chunkId == j && p.out[k].closed.event.chunkId == k
  {
    hide InStep, OpenPart, IdlePart, Begins, DescribesFrames;
    assert Described(cfg, input, p.out, j) && Described(cfg, input, p.out, k);
    if j + 1 < k {
      DisjointFrom(cfg, input, p, j, k - 1);
      assert Described(cfg, input, p.out, k - 1);
    }
  }

  /** The fields of an event that describes frames s..b, in terms of the input. */
  lemma FieldsOfSlice(cfg: ChunkerConfig, input: seq<Tick>, c: Closed, s: nat, b: nat)
    requires s <= b <= |input| && DescribesFrames(cfg, c, Frames(input)[s..b])
    ensures c.event.frameCount == b - s
    ensures s < b ==>
      && c.event.firstSeq == input[s].frame.hdr.seqNo
      && c.event.lastSeq == input[b - 1].frame.hdr.seqNo
      && c.event.tFirstFrameNs == input[s].frame.hdr.tProduceNs
      && c.event.format == input[s].frame.hdr.format
    ensures s == b ==>
      c.event.firstSeq == 0 && c.event.lastSeq == 0 && c.event.tFirstFrameNs == c.event.tSpeechStartNs
    ensures var audio := Fitting(cfg.maxChunkBytes, Frames(input)[s..b]);
      c.audio == audio && c.event.byteCount == |audio| % TWO_32
    ensures var audio := Concat(Frames(input)[s..b]);
      c.audio == audio <==> |audio| <= cfg.maxChunkBytes
  {
    hide Concat, Fitting;
    AllIsKeptExactlyWhen(cfg.maxChunkBytes, Frames(input)[s..b]);
    var fs := Frames(input)[s..b];
    if s < b {
      assert fs[0] == input[s].frame && fs[|fs| - 1] == input[b - 1].frame;
    }
  }

  lemma EveryChunkDescribed(cfg: ChunkerConfig, input: seq<Tick>, k: nat)
    requires |input| < TWO_32 && k < |Trace(cfg, input, |input|).out|
    ensures Described(cfg, input, Trace(cfg, input, |input|).out, k)
  {
    hide Trace, InStep, OpenPart, IdlePart, Described;
    EveryRunTracked(cfg, input, |input|);
  }

  /** What event k says about the frames it covers: their numbers, stamps, format and bytes. */
  lemma ChunkIsItsSlice(cfg: ChunkerConfig, input: seq<Tick>, k: nat)
    requires |input| < TWO_32
    requires k < |Trace(cfg, input, |input|).out|
    ensures var out := Trace(cfg, input, |input|).out;
      var e, s, b := out[k].closed.event, Begin(out, k), out[k].end;
      && PrevEnd(out, k) <= s <= b <= |input| && 0 < b && EndsAt(input[b - 1], e)
      && (e.frameCount > 0 ==>
           && e.firstSeq == input[s].frame.hdr.seqNo
           && e.lastSeq == input[b - 1].frame.hdr.seqNo
           && e.tFirstFrameNs == input[s].frame.hdr.tProduceNs
           && e.format == input[s].frame.hdr.format)
      && (e.frameCount == 0 ==> e.firstSeq == 0 && e.lastSeq == 0 && e.tFirstFrameNs == e.tSpeechStartNs)
      && (var audio := out[k].closed.audio;
          && audio == Fitting(cfg.maxChunkBytes, Frames(input)[s..b]) && e.byteCount == |audio| % TWO_32
          && (audio == Concat(Frames(input)[s..b]) <==> |Concat(Frames(input)[s..b])| <= cfg.maxChunkBytes))
  {
    hide Trace, Begins, DescribesFrames, Concat, Fitting, GateAfter, EndsAt;
    EveryChunkDescribed(cfg, input, k);
    var out := Trace(cfg, input, |input|).out;
    FieldsOfSlice(cfg, input, out[k].closed, Begin(out, k), out[k].end);
  }

  /** Where and when chunk k began, and the losses it counts. One cut for length is followed at once by the next, and
      only a flush right then makes that one empty; any other was opened by onset, with all the pre-roll there is. */
  lemma ChunkBeginsAtItsOnset(cfg: ChunkerConfig, input: seq<Tick>, k: nat)
    requires |input| < TWO_32
    requires k < |Trace(cfg, input, |input|).out|
    ensures var out := Trace(cfg, input, |input|).out;
      var e, s, b := out[k].closed.event, Begin(out, k), out[k].end;
      && 0 <= s <= b <= |input|
      && (Resumes(out, k) ==>
            && 0 < s == PrevEnd(out, k)
            && e.tSpeechStartNs == input[s - 1].nowNs
            && e.droppedFrames == Lost(input, s, b) % TWO_32)
      && (!Resumes(out, k) ==>
            exists o: nat :: OpenedAt(cfg, input, PrevEnd(out, k), s, o, b, e.droppedFrames, e.tSpeechStartNs))
      && (e.frameCount == 0 <==> Resumes(out, k) && b == PrevEnd(out, k))
      && (e.frameCount == 0 ==> e.reason == StreamEnd)
      && (e.reason == Hangover ==> !GateAfter(cfg, input, b).speaking)
  {
    hide Trace, DescribesFrames, Lost, GateAfter, EndsAt;
    EveryChunkDescribed(cfg, input, k);
  }
}
