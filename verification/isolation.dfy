// When storage another call has used is as good as new: exactly what of the old
// assembler can show in the next call's events, and how much of the next call's
// first chunk is the old call's audio.

module Isolation {
  import opened Words
  import opened Audio
  import Gate
  import opened Chunker
  import opened Slices
  import opened Coverage
  import opened SessionIndex
  import opened SessionView
  import opened SessionRuns
  import HotLoop
  import opened Demux
  import opened CallChunks
  import opened Reuse

  /** All that comes of an assembler fed own and then flushed. */
  function Emits(cfg: ChunkerConfig, a: AssemblerState, own: seq<Dequeued>, endNs: uint64, c: uint32): seq<ChunkEvent> {
    var (z, events) := Lone(cfg, a, own, c);
    events + EventFor(FlushStep(z, endNs).1, c)
  }

  /** Nobody can tell the assembler from a fresh one. */
  ghost predicate AsGoodAsNew(cfg: ChunkerConfig, a: AssemblerState, c: uint32) {
    forall own: seq<Dequeued>, endNs: uint64 :: Emits(cfg, a, own, endNs, c) == Emits(cfg, FRESH, own, endNs, c)
  }

  function Window(cfg: ChunkerConfig): nat { Gate.Normalised(cfg.gate).speechFrames }

  /** The gate rests with an empty window and no cooldown, no chunk has come out, and the pre-roll is empty or too
      short to reach back past a window. */
  predicate Untraced(cfg: ChunkerConfig, a: AssemblerState) {
    && !a.gate.speaking && a.gate.loudFrames == 0 && !Cooling(cfg, a.gate)
    && a.nextChunkId == 0
    && (a.preRoll == [] || cfg.preRollFrames < Window(cfg))
  }

  lemma EmitsStep(cfg: ChunkerConfig, a: AssemblerState, own: seq<Dequeued>, endNs: uint64, c: uint32)
    requires own != []
    ensures var (b, e) := FrameStep(cfg, a, own[0].0, own[0].1);
      Emits(cfg, a, own, endNs, c) == EventFor(e, c) + Emits(cfg, b, own[1..], endNs, c)
  {
    hide FrameStep, FlushStep;
  }

  lemma EmitsNothing(cfg: ChunkerConfig, a: AssemblerState, endNs: uint64, c: uint32)
    ensures Emits(cfg, a, [], endNs, c) == EventFor(FlushStep(a, endNs).1, c)
  {
    hide FlushStep;
    assert [] + EventFor(FlushStep(a, endNs).1, c) == EventFor(FlushStep(a, endNs).1, c);
  }

  // ------------------------------------------------------ nothing of it shows

  /** The pre-rolls will be the same by the time onset can come. */
  predicate SameInTime(cfg: ChunkerConfig, x: seq<AudioFrame>, y: seq<AudioFrame>, loud: nat) {
    && |x| <= cfg.preRollFrames && |y| <= cfg.preRollFrames
    && (x == y || (cfg.preRollFrames < Window(cfg) && LastOf(x, loud) == LastOf(y, loud)))
  }

  /** Two resting assemblers that differ in nothing a later event can show. */
  predicate Alike(cfg: ChunkerConfig, a: AssemblerState, b: AssemblerState) {
    && !a.active && !b.active && !a.gate.speaking && !b.gate.speaking
    && !Cooling(cfg, a.gate) && !Cooling(cfg, b.gate)
    && a.gate.loudFrames == b.gate.loudFrames < Window(cfg)
    && a.nextChunkId == b.nextChunkId
    && SameInTime(cfg, a.preRoll, b.preRoll, a.gate.loudFrames)
  }

  lemma SamePreRollGrows(cfg: ChunkerConfig, x: seq<AudioFrame>, y: seq<AudioFrame>, loud: nat, f: AudioFrame)
    requires SameInTime(cfg, x, y, loud)
    ensures SameInTime(cfg, LastOf(x + [f], cfg.preRollFrames), LastOf(y + [f], cfg.preRollFrames), 0)
    ensures SameInTime(cfg, LastOf(x + [f], cfg.preRollFrames), LastOf(y + [f], cfg.preRollFrames), loud + 1)
  {
    TailGrows(x, f, loud, cfg.preRollFrames);
    TailGrows(y, f, loud, cfg.preRollFrames);
  }

  /** The last loud + 1 of the longer pre-roll are the last loud of the shorter and the new frame. */
  lemma TailGrows(x: seq<AudioFrame>, f: AudioFrame, loud: nat, cap: nat)
    requires |x| <= cap
    ensures LastOf(LastOf(x + [f], cap), 0) == []
    ensures LastOf(LastOf(x + [f], cap), loud + 1) == LastOf(LastOf(x, loud) + [f], cap)
  {
    var y := LastOf(x, loud);
    if loud < |x| {
      assert x + [f] == x[..|x| - loud] + (y + [f]);
      LastOfTail(x[..|x| - loud], y + [f], cap);
    }
  }

  /** The last of a sequence's last is the last of any tail long enough. */
  lemma LastOfTail(x: seq<AudioFrame>, y: seq<AudioFrame>, cap: nat)
    ensures LastOf(LastOf(x + y, cap), |y|) == LastOf(y, cap)
  {
    var s := x + y;
    if |s| <= cap {
      assert s[|x|..] == y;
    } else if |y| <= cap {
      assert s[|s| - cap..][cap - |y|..] == y;
    } else {
      assert s[|s| - cap..] == y[|y| - cap..];
    }
  }

  lemma SameByOnset(cfg: ChunkerConfig, x: seq<AudioFrame>, y: seq<AudioFrame>, loud: nat)
    requires SameInTime(cfg, x, y, loud) && loud + 1 >= Window(cfg)
    ensures x == y
  {
  }

  /** Equal, once a frame has gone in, but for fields a chunk's first frame sets. */
  predicate Close(x: AssemblerState, y: AssemblerState) {
    y == x.(preRoll := y.preRoll, format := if x.haveFirst then x.format else y.format)
  }

  lemma AppendsBringTogether(cfg: ChunkerConfig, x: AssemblerState, y: AssemblerState, f: AudioFrame)
    requires Close(x, y)
    ensures Close(Append(cfg, x, f), Append(cfg, y, f)) && Append(cfg, x, f).haveFirst
  {
  }

  lemma {:induction false} AppendAllBringsTogether(cfg: ChunkerConfig, x: AssemblerState, y: AssemblerState,
                                                   fs: seq<AudioFrame>)
    requires Close(x, y)
    ensures Close(AppendAll(cfg, x, fs), AppendAll(cfg, y, fs))
  {
    hide Append, Close;
    if fs != [] {
      AppendAllBringsTogether(cfg, x, y, fs[..|fs| - 1]);
      AppendsBringTogether(cfg, AppendAll(cfg, x, fs[..|fs| - 1]), AppendAll(cfg, y, fs[..|fs| - 1]), fs[|fs| - 1]);
    }
  }

  /** Onset brings alike assemblers into the same state. */
  lemma OnsetBringsTogether(cfg: ChunkerConfig, a: AssemblerState, b: AssemblerState, f: AudioFrame, nowNs: uint64)
    requires Alike(cfg, a, b)
    requires Gate.Step(Gate.Normalised(cfg.gate), a.gate, LoudFrame(cfg, f), Millis(nowNs)).1
    ensures Placed(cfg, a, f, nowNs) == Placed(cfg, b, f, nowNs)
  {
    hide Append, AppendAll;
    SameByOnset(cfg, a.preRoll, b.preRoll, a.gate.loudFrames);
    var g := Gate.Step(Gate.Normalised(cfg.gate), a.gate, LoudFrame(cfg, f), Millis(nowNs)).0;
    assert g == Gate.Step(Gate.Normalised(cfg.gate), b.gate, LoudFrame(cfg, f), Millis(nowNs)).0;
    var x := OpenChunk(NoteSeq(a, f.hdr.seqNo).(gate := g), nowNs);
    var y := OpenChunk(NoteSeq(b, f.hdr.seqNo).(gate := g), nowNs);
    AppendAllBringsTogether(cfg, x, y, a.preRoll);
    var x', y' := AppendAll(cfg, x, a.preRoll).(preRoll := []), AppendAll(cfg, y, b.preRoll).(preRoll := []);
    AppendsBringTogether(cfg, x', y', f);
    AppendKeepsPreRoll(cfg, x', f);
    AppendKeepsPreRoll(cfg, y', f);
  }

  lemma AppendKeepsPreRoll(cfg: ChunkerConfig, a: AssemblerState, f: AudioFrame)
    ensures Append(cfg, a, f).preRoll == a.preRoll
  {
  }

  /** The gate's steps from two resting gates with equal windows and no cooldown. */
  lemma GatesAgree(cfg: ChunkerConfig, a: AssemblerState, b: AssemblerState, loud: bool, nowMs: real)
    requires Alike(cfg, a, b)
    ensures var (g, onset) := Gate.Step(Gate.Normalised(cfg.gate), a.gate, loud, nowMs);
      var (h, onset') := Gate.Step(Gate.Normalised(cfg.gate), b.gate, loud, nowMs);
      && onset == onset'
      && (!onset ==>
           && !g.speaking && !h.speaking && !Cooling(cfg, g) && !Cooling(cfg, h)
           && g.loudFrames == h.loudFrames == (if loud then a.gate.loudFrames + 1 else 0) < Window(cfg))
  {
  }

  /** Whether the frame is onset for the assembler. */
  predicate IsOnset(cfg: ChunkerConfig, a: AssemblerState, f: AudioFrame, nowNs: uint64) {
    Gate.Step(Gate.Normalised(cfg.gate), a.gate, LoudFrame(cfg, f), Millis(nowNs)).1
  }

  lemma OnsetStep(cfg: ChunkerConfig, a: AssemblerState, b: AssemblerState, f: AudioFrame, nowNs: uint64)
    requires Alike(cfg, a, b) && IsOnset(cfg, a, f, nowNs)
    ensures FrameStep(cfg, a, f, nowNs) == FrameStep(cfg, b, f, nowNs)
  {
    OnsetBringsTogether(cfg, a, b, f, nowNs);
    hide Placed;
  }

  lemma RestStep(cfg: ChunkerConfig, a: AssemblerState, b: AssemblerState, f: AudioFrame, nowNs: uint64)
    requires Alike(cfg, a, b) && !IsOnset(cfg, a, f, nowNs)
    ensures var (x, e) := FrameStep(cfg, a, f, nowNs);
      var (y, d) := FrameStep(cfg, b, f, nowNs);
      e == d == None && Alike(cfg, x, y)
  {
    hide FrameStep, SameInTime, Gate.Step, LastOf;
    GatesAgree(cfg, a, b, LoudFrame(cfg, f), Millis(nowNs));
    SamePreRollGrows(cfg, a.preRoll, b.preRoll, a.gate.loudFrames, f);
    GateOf(cfg, a, f, nowNs);
    GateOf(cfg, b, f, nowNs);
    PreRollOf(cfg, a, f, nowNs);
    PreRollOf(cfg, b, f, nowNs);
    IdKept(cfg, a, f, nowNs);
    IdKept(cfg, b, f, nowNs);
  }

  lemma AlikeStep(cfg: ChunkerConfig, a: AssemblerState, b: AssemblerState, f: AudioFrame, nowNs: uint64)
    requires Alike(cfg, a, b)
    ensures var (x, e) := FrameStep(cfg, a, f, nowNs);
      var (y, d) := FrameStep(cfg, b, f, nowNs);
      e == d && (x == y || (e == None && Alike(cfg, x, y)))
  {
    hide FrameStep, Alike, IsOnset;
    if IsOnset(cfg, a, f, nowNs) { OnsetStep(cfg, a, b, f, nowNs); } else { RestStep(cfg, a, b, f, nowNs); }
  }

  lemma IdKept(cfg: ChunkerConfig, a: AssemblerState, f: AudioFrame, nowNs: uint64)
    ensures var (b, c) := FrameStep(cfg, a, f, nowNs);
      c == None ==> b.nextChunkId == a.nextChunkId
  {
    var b := Placed(cfg, a, f, nowNs);
    AppendAllKeeps(cfg, OpenChunk(NoteSeq(a, f.hdr.seqNo).(gate := b.gate), nowNs), a.preRoll);
  }

  /** Alike assemblers, fed the same frames, emit the same events. */
  lemma {:induction false} AlikeEmitsAlike(cfg: ChunkerConfig, a: AssemblerState, b: AssemblerState,
                                           own: seq<Dequeued>, endNs: uint64, c: uint32)
    requires Alike(cfg, a, b)
    ensures Emits(cfg, a, own, endNs, c) == Emits(cfg, b, own, endNs, c)
    ensures Lone(cfg, a, own, c).1 == Lone(cfg, b, own, c).1
    decreases |own|
  {
    hide FrameStep, Emits;
    if own == [] {
      EmitsNothing(cfg, a, endNs, c);
      EmitsNothing(cfg, b, endNs, c);
    } else {
      var f, nowNs := own[0].0, own[0].1;
      AlikeStep(cfg, a, b, f, nowNs);
      EmitsStep(cfg, a, own, endNs, c);
      EmitsStep(cfg, b, own, endNs, c);
      var x, y := FrameStep(cfg, a, f, nowNs).0, FrameStep(cfg, b, f, nowNs).0;
      if x != y { AlikeEmitsAlike(cfg, x, y, own[1..], endNs, c); }
    }
  }

  lemma UntracedIsAlike(cfg: ChunkerConfig, a: AssemblerState)
    requires Sane(cfg, a) && !a.active && Untraced(cfg, a)
    ensures Alike(cfg, a, FRESH)
  {
    assert LastOf(a.preRoll, 0) == [] == LastOf([], 0);
  }

  // ------------------------------------------------------ something of it shows

  /** n copies of a frame, all at time 0. */
  function Copies(f: AudioFrame, n: nat): (s: seq<Dequeued>)
    ensures |s| == n
  {
    seq(n, _ => (f, 0))
  }

  lemma CopiesLeft(f: AudioFrame, n: nat)
    requires n > 0
    ensures Copies(f, n)[0] == (f, 0) && Copies(f, n)[1..] == Copies(f, n - 1)
  {
  }

  lemma HeardEmits(cfg: ChunkerConfig, a: AssemblerState, own: seq<Dequeued>, endNs: uint64, c: uint32)
    ensures Reuse.Heard(Lone(cfg, a, own, c)) <==> Emits(cfg, a, own, endNs, c) != []
  {
    hide Lone;
  }

  /** Enough loud frames to fill the window are heard, where no cooldown stands in the way. */
  lemma LoudCopiesAreHeard(cfg: ChunkerConfig, a: AssemblerState, f: AudioFrame, n: nat, c: uint32)
    requires Sane(cfg, a) && !a.gate.speaking && !Cooling(cfg, a.gate) && LoudFrame(cfg, f)
    requires n + a.gate.loudFrames >= Window(cfg)
    ensures Emits(cfg, a, Copies(f, n), 0, c) != []
  {
    hide Lone, FrameStep;
    LoudFramesAreHeard(cfg, a, Copies(f, n), c);
    HeardEmits(cfg, a, Copies(f, n), 0, c);
  }

  lemma {:induction false} CopiesKeepTheGate(cfg: ChunkerConfig, f: AudioFrame, n: nat, q: nat)
    requires LoudFrame(cfg, f) && 0 < n
    ensures NoHangover(cfg, Copies(f, n), q)
  {
    CopiesLeft(f, n);
    if n > 1 { CopiesKeepTheGate(cfg, f, n - 1, 0); } else { assert NoHangover(cfg, Copies(f, 0), 0); }
  }

  /** No number of loud frames at time 0 is heard through a running cooldown. */
  lemma {:induction false} CoolingIsDeaf(cfg: ChunkerConfig, a: AssemblerState, f: AudioFrame, n: nat, c: uint32)
    requires Sane(cfg, a) && !a.active && !a.gate.speaking && Cooling(cfg, a.gate) && LoudFrame(cfg, f)
    ensures Emits(cfg, a, Copies(f, n), 0, c) == []
    decreases n
  {
    hide FrameStep, Emits;
    if n == 0 {
      EmitsNothing(cfg, a, 0, c);
    } else {
      GateOf(cfg, a, f, 0);
      FrameKeepsSane(cfg, a, f, 0);
      CopiesLeft(f, n);
      EmitsStep(cfg, a, Copies(f, n), 0, c);
      CoolingIsDeaf(cfg, FrameStep(cfg, a, f, 0).0, f, n - 1, c);
    }
  }

  /** Fewer loud frames than the window has left are not heard. */
  lemma {:induction false} TooFewAreNotHeard(cfg: ChunkerConfig, a: AssemblerState, f: AudioFrame, n: nat, c: uint32)
    requires !a.active && !a.gate.speaking && LoudFrame(cfg, f) && a.gate.loudFrames + n < Window(cfg)
    ensures Emits(cfg, a, Copies(f, n), 0, c) == []
    decreases n
  {
    hide FrameStep, Emits;
    if n == 0 {
      EmitsNothing(cfg, a, 0, c);
    } else {
      GateOf(cfg, a, f, 0);
      CopiesLeft(f, n);
      EmitsStep(cfg, a, Copies(f, n), 0, c);
      TooFewAreNotHeard(cfg, FrameStep(cfg, a, f, 0).0, f, n - 1, c);
    }
  }

  /** What the first event of just enough loud frames carries: the chunk number the assembler had come to, and as many
      frames as the pre-roll held when onset came, and one. */
  ghost predicate FirstEventIs(cfg: ChunkerConfig, a: AssemblerState, events: seq<ChunkEvent>, n: nat) {
    && events != [] && events[0].chunkId == a.nextChunkId
    && events[0].frameCount == (Min(cfg.preRollFrames, |a.preRoll| + n - 1) + 1) % TWO_32
  }

  lemma OnsetFrameCounts(cfg: ChunkerConfig, a: AssemblerState, f: AudioFrame, nowNs: uint64)
    requires !a.active && |a.preRoll| < TWO_32
    requires Gate.Step(Gate.Normalised(cfg.gate), a.gate, LoudFrame(cfg, f), Millis(nowNs)).1
    ensures var (b, e) := FrameStep(cfg, a, f, nowNs);
      && (e.Some? ==> e.value.event.chunkId == a.nextChunkId && e.value.event.frameCount == (|a.preRoll| + 1) % TWO_32)
      && (e == None ==> b.active && b.nextChunkId == a.nextChunkId && b.frameCount == (|a.preRoll| + 1) % TWO_32)
  {
    hide Append, AppendAll;
    var g := Gate.Step(Gate.Normalised(cfg.gate), a.gate, LoudFrame(cfg, f), Millis(nowNs)).0;
    var x := OpenChunk(NoteSeq(a, f.hdr.seqNo).(gate := g), nowNs);
    AppendAllKeeps(cfg, x, a.preRoll);
    AppendAllCounts(cfg, x, a.preRoll);
    AppendCounts(cfg, AppendAll(cfg, x, a.preRoll).(preRoll := []), f);
    AppendKeepsId(cfg, AppendAll(cfg, x, a.preRoll).(preRoll := []), f);
  }

  lemma AppendKeepsId(cfg: ChunkerConfig, a: AssemblerState, f: AudioFrame)
    ensures Append(cfg, a, f).nextChunkId == a.nextChunkId && Append(cfg, a, f).gate == a.gate
  {
  }

  lemma {:induction false} FirstEvent(cfg: ChunkerConfig, a: AssemblerState, f: AudioFrame, n: nat, c: uint32)
    requires Sane(cfg, a) && !a.active && !a.gate.speaking && !Cooling(cfg, a.gate) && LoudFrame(cfg, f)
    requires 0 < n && a.gate.loudFrames + n == Window(cfg)
    ensures FirstEventIs(cfg, a, Emits(cfg, a, Copies(f, n), 0, c), n)
    decreases n
  {
    hide FrameStep, Emits;
    GateOf(cfg, a, f, 0);
    PreRollOf(cfg, a, f, 0);
    CopiesLeft(f, n);
    EmitsStep(cfg, a, Copies(f, n), 0, c);
    var (b, e) := FrameStep(cfg, a, f, 0);
    if n == 1 {
      OnsetFrameCounts(cfg, a, f, 0);
      assert Copies(f, 0) == [];
      EmitsNothing(cfg, b, 0, c);
    } else {
      FrameKeepsSane(cfg, a, f, 0);
      IdKept(cfg, a, f, 0);
      assert EventFor(e, c) + Emits(cfg, b, Copies(f, n - 1), 0, c) == Emits(cfg, b, Copies(f, n - 1), 0, c);
      FirstEvent(cfg, b, f, n - 1, c);
    }
  }

  lemma FreshIsSane(cfg: ChunkerConfig)
    ensures Sane(cfg, FRESH) && !FRESH.active && !FRESH.gate.speaking && !Cooling(cfg, FRESH.gate)
    ensures FRESH.gate.loudFrames == 0 && FRESH.preRoll == [] && FRESH.nextChunkId == 0
  {
  }

  /** Frames that tell the assembler from a fresh one. */
  lemma TraceShows(cfg: ChunkerConfig, a: AssemblerState, f: AudioFrame, c: uint32) returns (own: seq<Dequeued>)
    requires Sane(cfg, a) && !a.active && LoudFrame(cfg, f) && !Untraced(cfg, a)
    ensures Emits(cfg, a, own, 0, c) != Emits(cfg, FRESH, own, 0, c)
  {
    hide Emits, Sane, Cooling;
    var s := Window(cfg);
    FreshIsSane(cfg);
    own := Copies(f, s);
    LoudCopiesAreHeard(cfg, FRESH, f, s, c);
    if a.gate.speaking {
      CopiesKeepTheGate(cfg, f, s, a.gate.quietFrames);
      DeafWhileSpeaking(cfg, a, own, c);
      HeardEmits(cfg, a, own, 0, c);
    } else if Cooling(cfg, a.gate) {
      CoolingIsDeaf(cfg, a, f, s, c);
    } else if a.gate.loudFrames > 0 {
      WindowNotFull(cfg, a);
      own := Copies(f, s - a.gate.loudFrames);
      LoudCopiesAreHeard(cfg, a, f, s - a.gate.loudFrames, c);
      TooFewAreNotHeard(cfg, FRESH, f, s - a.gate.loudFrames, c);
    } else {
      FirstEvent(cfg, a, f, s, c);
      FirstEvent(cfg, FRESH, f, s, c);
      if a.nextChunkId == 0 { CountsDiffer(cfg, a); }
    }
  }

  lemma WindowNotFull(cfg: ChunkerConfig, a: AssemblerState)
    requires Sane(cfg, a) && !a.gate.speaking && !Cooling(cfg, a.gate)
    ensures a.gate.loudFrames < Window(cfg)
  {
  }

  lemma CountsDiffer(cfg: ChunkerConfig, a: AssemblerState)
    requires Sane(cfg, a) && a.preRoll != [] && cfg.preRollFrames >= Window(cfg)
    ensures (Min(cfg.preRollFrames, |a.preRoll| + Window(cfg) - 1) + 1) % TWO_32
      != (Min(cfg.preRollFrames, Window(cfg) - 1) + 1) % TWO_32
  {
  }

  // ------------------------------------------------------ the exact condition

  /** Storage left by another call is as good as new, for every sequence of frames a call can bring, exactly when the
      gate was left resting with no loud frame counted and no cooldown, no chunk had come out, and the pre-roll was
      left empty or is shorter than the window. */
  lemma AsGoodAsNewExactlyWhen(cfg: ChunkerConfig, a: AssemblerState, f: AudioFrame, c: uint32)
    requires Sane(cfg, a) && !a.active && LoudFrame(cfg, f)
    ensures AsGoodAsNew(cfg, a, c) <==> Untraced(cfg, a)
  {
    hide Emits, Sane, Untraced;
    if Untraced(cfg, a) {
      UntracedIsAlike(cfg, a);
      forall own: seq<Dequeued>, endNs: uint64
        ensures Emits(cfg, a, own, endNs, c) == Emits(cfg, FRESH, own, endNs, c)
      {
        AlikeEmitsAlike(cfg, a, FRESH, own, endNs, c);
      }
    } else {
      var own := TraceShows(cfg, a, f, c);
    }
  }

  // ------------------------------------------------------ whose audio the first chunk is

  /** No chunk opens while these frames come. */
  predicate StaysClosed(cfg: ChunkerConfig, a: AssemblerState, own: seq<Dequeued>)
    decreases |own|
  {
    own == [] ||
    var (b, e) := FrameStep(cfg, a, own[0].0, own[0].1);
    !b.active && e == None && StaysClosed(cfg, b, own[1..])
  }

  function FramesOf(own: seq<Dequeued>): (fs: seq<AudioFrame>)
    ensures |fs| == |own|
  {
    seq(|own|, i requires 0 <= i < |own| => own[i].0)
  }

  lemma LoneStaysClosed(cfg: ChunkerConfig, a: AssemblerState, own: seq<Dequeued>, c: uint32)
    requires own != [] && FrameStep(cfg, a, own[0].0, own[0].1).1 == None
    ensures Lone(cfg, a, own, c) == Lone(cfg, FrameStep(cfg, a, own[0].0, own[0].1).0, own[1..], c)
  {
    hide FrameStep;
    var b := FrameStep(cfg, a, own[0].0, own[0].1).0;
    assert [] + Lone(cfg, b, own[1..], c).1 == Lone(cfg, b, own[1..], c).1;
  }

  lemma OneMoreInPreRoll(pre: seq<AudioFrame>, own: seq<Dequeued>, n: nat)
    requires own != []
    ensures LastOf(LastOf(pre + [own[0].0], n) + FramesOf(own[1..]), n) == LastOf(pre + FramesOf(own), n)
  {
    hide LastOf;
    LastOfLast(pre + [own[0].0], FramesOf(own[1..]), n);
    assert pre + FramesOf(own) == pre + [own[0].0] + FramesOf(own[1..]);
  }

  lemma NoneInPreRoll(pre: seq<AudioFrame>, n: nat)
    requires |pre| <= n
    ensures LastOf(pre + FramesOf([]), n) == pre
  {
  }

  /** Until then the pre-roll holds the last of the old frames and the new, the old ones giving way. */
  lemma {:induction false} PreRollFills(cfg: ChunkerConfig, a: AssemblerState, own: seq<Dequeued>, c: uint32)
    requires !a.active && |a.preRoll| <= cfg.preRollFrames && StaysClosed(cfg, a, own)
    ensures !Lone(cfg, a, own, c).0.active && Lone(cfg, a, own, c).1 == []
    ensures Lone(cfg, a, own, c).0.preRoll == LastOf(a.preRoll + FramesOf(own), cfg.preRollFrames)
    decreases |own|
  {
    hide FrameStep, LastOf, FramesOf;
    if own == [] {
      NoneInPreRoll(a.preRoll, cfg.preRollFrames);
    } else {
      hide Lone, Gate.Step;
      var f, nowNs := own[0].0, own[0].1;
      GateOf(cfg, a, f, nowNs);
      PreRollOf(cfg, a, f, nowNs);
      LoneStaysClosed(cfg, a, own, c);
      PreRollFills(cfg, FrameStep(cfg, a, f, nowNs).0, own[1..], c);
      OneMoreInPreRoll(a.preRoll, own, cfg.preRollFrames);
    }
  }

  lemma LastOfLast(x: seq<AudioFrame>, y: seq<AudioFrame>, n: nat)
    ensures LastOf(LastOf(x, n) + y, n) == LastOf(x + y, n)
  {
    if |x| > n {
      assert (x + y)[|x| + |y| - n..] == (x[|x| - n..] + y)[|y|..];
    }
  }

  /** How many of the old call's frames are left in the pre-roll after j of the new one's. */
  function Leftover(cfg: ChunkerConfig, a: AssemblerState, j: nat): nat {
    Min(|a.preRoll|, Max(cfg.preRollFrames - j, 0))
  }

  lemma LastOfBoth(x: seq<AudioFrame>, y: seq<AudioFrame>, n: nat)
    ensures LastOf(x + y, n) == LastOf(x, Max(n - |y|, 0)) + LastOf(y, n)
  {
  }

  /** The first chunk a new call opens on used storage, on its frame x after own: the old call's last frames, as many as
      its pre-roll still has room for, and then the new call's own. */
  lemma FirstChunkIs(cfg: ChunkerConfig, a: AssemblerState, own: seq<Dequeued>, x: Dequeued, c: uint32)
    requires !a.active && |a.preRoll| <= cfg.preRollFrames && StaysClosed(cfg, a, own)
    requires Leftover(cfg, a, |own|) + |own| + 1 < TWO_32
    requires Placed(cfg, Lone(cfg, a, own, c).0, x.0, x.1).active
    ensures var old' := LastOf(a.preRoll, Leftover(cfg, a, |own|));
      var mine := LastOf(FramesOf(own), cfg.preRollFrames) + [x.0];
      && |old'| == Leftover(cfg, a, |own|)
      && Holds(cfg, Placed(cfg, Lone(cfg, a, own, c).0, x.0, x.1), old' + mine)
  {
    hide Lone, FrameStep, Placed, Holds, StaysClosed;
    PreRollFills(cfg, a, own, c);
    LastOfBoth(a.preRoll, FramesOf(own), cfg.preRollFrames);
    var z, r := Lone(cfg, a, own, c).0, Max(cfg.preRollFrames - |own|, 0);
    assert LastOf(a.preRoll, r) == LastOf(a.preRoll, Leftover(cfg, a, |own|));
    var old', mine := LastOf(a.preRoll, Leftover(cfg, a, |own|)), LastOf(FramesOf(own), cfg.preRollFrames);
    OpensWithPreRoll(cfg, z, x.0, x.1);
    assert old' + mine + [x.0] == old' + (mine + [x.0]);
  }

  lemma OpensWithPreRoll(cfg: ChunkerConfig, a: AssemblerState, f: AudioFrame, nowNs: uint64)
    requires !a.active && |a.preRoll| + 1 < TWO_32 && Placed(cfg, a, f, nowNs).active
    ensures Holds(cfg, Placed(cfg, a, f, nowNs), a.preRoll + [f])
  {
    hide Holds, Append, AppendAll;
    var g := Gate.Step(Gate.Normalised(cfg.gate), a.gate, LoudFrame(cfg, f), Millis(nowNs)).0;
    var noted := NoteSeq(a, f.hdr.seqNo).(gate := g);
    BlankHolds(cfg, noted, nowNs);
    RolledHolds(cfg, OpenChunk(noted, nowNs), a.preRoll, f);
  }

  // ------------------------------------------------------ in a run

  /** In any state of any run: where the storage a call opens on is as good as new, the loop emits for the call, as long
      as it is not expired, exactly what a fresh assembler fed its frames alone would. */
  lemma OpenedAsNewIsAlone(cfg: HotLoop.LoopConfig, p: HotLoop.Progress, turns: seq<HotLoop.Turn>, c: uint32)
    requires Coherent(p.table) && Settled(cfg.chunker, p.table)
    requires turns != [] && !HotLoop.PastDeadline(cfg, turns[0]) && c !in p.table.dir
    requires turns[0].popped.Some? && turns[0].popped.value.hdr.sessionId == c
    requires var s := HotLoop.SweepIfDue(cfg, p, turns[0].loopNs).table;
      Coherent(s) && s.free != [] && Untraced(cfg.chunker, NextAssembler(s))
    requires var q := HotLoop.OneTurn(cfg, p, turns[0]); Coherent(q.table) && Spared(cfg, q, turns[1..], c)
    ensures Tagged(HotLoop.Run(cfg, p, turns).emitted, c) ==
      Tagged(p.emitted, c) + Lone(cfg.chunker, FRESH, Own(cfg, turns, c), c).1
  {
    hide HotLoop.SweepIfDue, HotLoop.Handle, FrameStep, Tagged, Partitions, Swept, Sane, Lone, Own, EventFor, Spared;
    hide Untraced, Alike, Injective, ActiveIfLive, Emits, Settled;
    var f, s := turns[0].popped.value, HotLoop.SweepIfDue(cfg, p, turns[0].loopNs);
    var a, q := NextAssembler(s.table), HotLoop.OneTurn(cfg, p, turns[0]);
    SweepSpares(cfg, p, turns[0].loopNs, c);
    SweepSettles(cfg, p, turns[0].loopNs);
    FirstFrame(cfg, s, f, turns[0].dequeueNs);
    LiveCallIsAlone(cfg, q, turns[1..], c);
    LoneStep(cfg, a, turns, c);
    NextIsClosed(cfg.chunker, s.table);
    UntracedIsAlike(cfg.chunker, a);
    AlikeEmitsAlike(cfg.chunker, a, FRESH, Own(cfg, turns, c), 0, c);
  }

  // ------------------------------------------------------ a witness

  lemma QuietFrameIsKept(cfg: ChunkerConfig, g: AudioFrame, nowNs: uint64)
    requires !LoudFrame(cfg, g) && cfg.preRollFrames > 0
    ensures var (a, e) := FrameStep(cfg, FRESH, g, nowNs);
      e == None && !a.active && a.gate == Gate.IDLE && a.preRoll == [g]
  {
    GateOf(cfg, FRESH, g, nowNs);
    PreRollOf(cfg, FRESH, g, nowNs);
    assert [] + [g] == [g];
  }

  /** A loud frame after another call's quiet one opens a chunk of both. */
  lemma LoudFrameOpensOnBoth(cfg: ChunkerConfig, a: AssemblerState, g: AudioFrame, f: AudioFrame, nowNs: uint64)
    requires Eager(cfg, f) && !a.active && a.gate == Gate.IDLE && a.preRoll == [g]
    ensures var (b, e) := FrameStep(cfg, a, f, nowNs);
      e == None && b.active && b.frameCount == 2 && b.firstSeq == g.hdr.seqNo && b.lastSeq == f.hdr.seqNo
  {
    hide Append, AppendAll;
    OpenedNow(cfg, a, f, nowNs);
    OpensWithPreRoll(cfg, a, f, nowNs);
    assert Millis(Sub64(nowNs, nowNs)) == 0.0;
  }

  lemma OpenedNow(cfg: ChunkerConfig, a: AssemblerState, f: AudioFrame, nowNs: uint64)
    requires Eager(cfg, f) && !a.active && a.gate == Gate.IDLE
    ensures var b := Placed(cfg, a, f, nowNs); b.active && b.gate.speaking && b.tSpeechStartNs == nowNs
  {
    hide Append, AppendAll;
    var noted := NoteSeq(a, f.hdr.seqNo);
    assert Gated(cfg, noted, f, nowNs) == (Gate.GateState(1, 0, true, true, Millis(nowNs)), true);
    var x := OpenChunk(noted.(gate := Gated(cfg, noted, f, nowNs).0), nowNs);
    AppendAllKeeps(cfg, x, a.preRoll);
    AppendKeepsStart(cfg, AppendAll(cfg, x, a.preRoll).(preRoll := []), f);
    AppendKeepsId(cfg, AppendAll(cfg, x, a.preRoll).(preRoll := []), f);
    AppendCounts(cfg, AppendAll(cfg, x, a.preRoll).(preRoll := []), f);
  }

  /** A call whose one frame was quiet, about to be swept. */
  ghost predicate QuietCall(q: HotLoop.Progress, d: uint32, g: AudioFrame, lastNs: uint64) {
    && Coherent(q.table) && |q.table.sessions| == 1 && q.table.dir == map[d := 0] && q.emitted == []
    && var s := q.table.sessions[0];
    && s.active && s.lastFrameNs == lastNs
    && !s.assembler.active && s.assembler.gate == Gate.IDLE && s.assembler.preRoll == [g]
  }

  lemma QuietCallWaits(cfg: HotLoop.LoopConfig, firstSweepNs: uint64, one: HotLoop.Turn)
    requires one.popped.Some? && !LoudFrame(cfg.chunker, one.popped.value) && cfg.chunker.preRollFrames > 0
    requires one.loopNs < firstSweepNs
    ensures var q, g := HotLoop.OneTurn(cfg, Demux.Begin(1, firstSweepNs), one), one.popped.value;
      QuietCall(q, g.hdr.sessionId, g, one.dequeueNs) && q.nextSweepNs == firstSweepNs
  {
    hide FrameStep;
    HotLoop.OneTurnCoherent(cfg, Demux.Begin(1, firstSweepNs), one);
    QuietFrameIsKept(cfg.chunker, one.popped.value, one.dequeueNs);
  }

  lemma QuietCallIsSwept(cfg: HotLoop.LoopConfig, q: HotLoop.Progress, d: uint32, g: AudioFrame, lastNs: uint64,
                         loopNs: uint64)
    requires QuietCall(q, d, g, lastNs) && q.nextSweepNs <= loopNs && Sub64(loopNs, lastNs) >= cfg.idleNs
    ensures var s := HotLoop.SweepIfDue(cfg, q, loopNs);
      && Coherent(s.table) && s.table.dir == map[] && s.table.free != [] && s.emitted == []
      && var a := NextAssembler(s.table);
      !a.active && a.gate == Gate.IDLE && a.preRoll == [g]
  {
    hide Sweep;
    HotLoop.SweepIfDueCoherent(cfg, q, loopNs);
    SweepClosesExactly(q.table, 1, loopNs, Some(cfg.idleNs));
    SweepTouchesExactly(q.table, 1, loopNs, Some(cfg.idleNs));
    var s := HotLoop.SweepIfDue(cfg, q, loopNs);
    assert s.table.dir == Survivors(q.table, 1, loopNs, Some(cfg.idleNs)) == map[];
    assert Tails(q.table.sessions, 1, loopNs, Some(cfg.idleNs)) == [];
    FreeLeavesRoom(s.table);
    FreeInRange(s.table);
  }

  /** Two calls, one session, a frame each; the first call's is quiet, and it is swept before the second comes. The one
      event the run emits for the second call covers two frames, the first of them the other call's. */
  lemma ReuseMixesCalls(cfg: HotLoop.LoopConfig, firstSweepNs: uint64, one: HotLoop.Turn, two: HotLoop.Turn,
                        endNs: uint64)
    requires one.popped.Some? && two.popped.Some?
    requires one.popped.value.hdr.sessionId != two.popped.value.hdr.sessionId
    requires !LoudFrame(cfg.chunker, one.popped.value) && Eager(cfg.chunker, two.popped.value)
    requires cfg.deadlineNs == 0 && cfg.chunker.preRollFrames > 0
    requires one.loopNs < firstSweepNs <= two.loopNs && Sub64(two.loopNs, one.dequeueNs) >= cfg.idleNs
    ensures var c, q := two.popped.value.hdr.sessionId, HotLoop.Run(cfg, Demux.Begin(1, firstSweepNs), [one, two]);
      var events := Tagged(HotLoop.Finish(q, endNs).emitted, c);
      && |events| == 1 && events[0].frameCount == 2
      && events[0].firstSeq == one.popped.value.hdr.seqNo && events[0].lastSeq == two.popped.value.hdr.seqNo
  {
    hide Coherent, HotLoop.OneTurn, HotLoop.SweepIfDue, FrameStep, Tagged, HotLoop.Finish, Eager, HotLoop.Handle;
    var c, g, f := two.popped.value.hdr.sessionId, one.popped.value, two.popped.value;
    var p := Demux.Begin(1, firstSweepNs);
    var q := HotLoop.OneTurn(cfg, p, one);
    QuietCallWaits(cfg, firstSweepNs, one);
    QuietCallIsSwept(cfg, q, g.hdr.sessionId, g, one.dequeueNs, two.loopNs);
    LastTurn(cfg, q, two);
    FirstFrame(cfg, HotLoop.SweepIfDue(cfg, q, two.loopNs), f, two.dequeueNs);
    LoudFrameOpensOnBoth(cfg.chunker, NextAssembler(HotLoop.SweepIfDue(cfg, q, two.loopNs).table), g, f, two.dequeueNs);
    NothingTagged(c);
    assert [one, two][1..] == [two] && [two][1..] == [];
    assert HotLoop.Run(cfg, p, [one, two]) == HotLoop.Run(cfg, q, [two]) == HotLoop.OneTurn(cfg, q, two);
    FinalFlush(HotLoop.OneTurn(cfg, q, two), endNs, c);
  }

  /** A turn that pops a frame: the sweep, and then the frame. */
  lemma LastTurn(cfg: HotLoop.LoopConfig, q: HotLoop.Progress, turn: HotLoop.Turn)
    requires Coherent(q.table) && turn.popped.Some?
    ensures Coherent(HotLoop.SweepIfDue(cfg, q, turn.loopNs).table) && Coherent(HotLoop.OneTurn(cfg, q, turn).table)
    ensures HotLoop.OneTurn(cfg, q, turn) ==
      HotLoop.Handle(cfg, HotLoop.SweepIfDue(cfg, q, turn.loopNs), turn.popped.value, turn.dequeueNs)
  {
    hide Coherent, HotLoop.SweepIfDue, HotLoop.Handle;
    HotLoop.SweepIfDueCoherent(cfg, q, turn.loopNs);
    HotLoop.OneTurnCoherent(cfg, q, turn);
  }
}
