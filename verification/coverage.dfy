// Which frames end up in a chunk, and which are lost: the fate of every frame of
// every run, flushes included, and how long chunks can grow.

module Coverage {
  import opened Words
  import opened Audio
  import opened Gate
  import opened Chunker
  import opened Slices

  predicate NoFlush(input: seq<Tick>, n: nat)
    requires n <= |input|
  {
    forall i :: 0 <= i < n ==> input[i].flushNs == None
  }

  predicate Onset(cfg: ChunkerConfig, input: seq<Tick>, i: nat)
    requires i < |input|
  {
    OnsetAt(Normalised(cfg.gate), Heard(cfg, input), i)
  }

  /** Frame i arrived while the gate was speaking, or made it speak. */
  predicate InSpeech(cfg: ChunkerConfig, input: seq<Tick>, i: nat)
    requires i < |input|
  {
    GateAfter(cfg, input, i).speaking || Onset(cfg, input, i)
  }

  predicate InChunk(out: seq<Emitted>, k: nat, i: nat) {
    k < |out| && Begin(out, k) <= i < out[k].end
  }

  ghost predicate InSomeChunk(out: seq<Emitted>, i: nat) {
    exists k: nat :: InChunk(out, k, i)
  }

  /** Frame i is in a chunk that came out, or in the open one. */
  ghost predicate Kept(p: Progress, n: nat, i: nat) {
    || InSomeChunk(p.out, i)
    || (p.state.active && n - p.state.frameCount <= i < n)
  }

  /** A chunk was open when frame i came, or frame i opened one. */
  predicate TakenIn(cfg: ChunkerConfig, input: seq<Tick>, i: nat)
    requires i < |input|
  {
    Trace(cfg, input, i).state.active || Onset(cfg, input, i)
  }

  /** An onset soon enough after frame i reaches back to it through the pre-roll. */
  predicate RolledIn(cfg: ChunkerConfig, input: seq<Tick>, n: nat, i: nat)
    requires n <= |input|
  {
    exists o: nat :: i < o < n && Onset(cfg, input, o) && o - i <= cfg.preRollFrames
  }

  // ------------------------------------------------------ one frame

  lemma AppendCounts(cfg: ChunkerConfig, a: AssemblerState, f: AudioFrame)
    ensures Append(cfg, a, f).frameCount == Inc32(a.frameCount) && Append(cfg, a, f).active == a.active
  {
  }

  lemma {:induction false} AppendAllCounts(cfg: ChunkerConfig, a: AssemblerState, fs: seq<AudioFrame>)
    requires a.frameCount + |fs| < TWO_32
    ensures AppendAll(cfg, a, fs).frameCount == a.frameCount + |fs|
  {
    hide Append;
    if fs != [] {
      AppendAllCounts(cfg, a, fs[..|fs| - 1]);
      AppendCounts(cfg, AppendAll(cfg, a, fs[..|fs| - 1]), fs[|fs| - 1]);
    }
  }

  /** What the state before a frame says about it. */
  lemma StateBefore(cfg: ChunkerConfig, input: seq<Tick>, n: nat, p: Progress)
    requires n < |input| < TWO_32 && Tracked(cfg, input, n, p) && (p.state.active ==> p.state.gate.speaking)
    ensures InStep(cfg, input, n, p.state)
    ensures p.state.gate.speaking == GateAfter(cfg, input, n).speaking
    ensures p.state.gate.speaking ==> !Onset(cfg, input, n)
    ensures p.state.active ==> p.state.frameCount <= n
    ensures !p.state.active ==>
      PrevEnd(p.out, |p.out|) <= n && |p.state.preRoll| == Min(cfg.preRollFrames, n - PrevEnd(p.out, |p.out|))
  {
  }

  /** The chunk open once the frame is placed: the old one longer by the frame, or the pre-roll and the frame. */
  lemma PlacedCounts(cfg: ChunkerConfig, input: seq<Tick>, n: nat, p: Progress)
    requires n < |input| < TWO_32 && Tracked(cfg, input, n, p) && (p.state.active ==> p.state.gate.speaking)
    ensures var b := PlacedAt(cfg, input, n, p.state);
      && (b.active <==> p.state.active || Onset(cfg, input, n))
      && (p.state.active ==> b.frameCount == p.state.frameCount + 1)
      && (Onset(cfg, input, n) ==> b.frameCount == |p.state.preRoll| + 1)
  {
    hide PlacedAt, Tracked, Append, AppendAll;
    StateBefore(cfg, input, n, p);
    PlacedBasics(cfg, input, n, p.state);
    PlacedCases(cfg, input, n, p.state);
    var c, f := Noted(cfg, input, n, p.state), input[n].frame;
    if p.state.active {
      AppendCounts(cfg, c, f);
    } else if Onset(cfg, input, n) {
      var blank := OpenChunk(c, input[n].nowNs);
      AppendAllCounts(cfg, blank, p.state.preRoll);
      AppendCounts(cfg, AppendAll(cfg, blank, p.state.preRoll).(preRoll := []), f);
    }
  }

  /** A frame not in a chunk, and near enough to an onset that finds no chunk open, came after the last chunk. */
  lemma {:induction false} NotBehind(cfg: ChunkerConfig, input: seq<Tick>, n: nat, p: Progress, k: nat, i: nat)
    requires n < |input| && Tracked(cfg, input, n, p) && k <= |p.out|
    requires i < n && n - i <= cfg.preRollFrames && !InSomeChunk(p.out, i)
    ensures PrevEnd(p.out, k) <= i
  {
    hide InStep, OpenPart, IdlePart, DescribesFrames, Lost, GateAfter, EndsAt;
    if k > 0 {
      NotBehind(cfg, input, n, p, k - 1, i);
      OutIsPast(cfg, input, n, p, k - 1);
      assert Described(cfg, input, p.out, k - 1);
      assert !InChunk(p.out, k - 1, i);
    }
  }

  /** Chunks that came out hold none of the frames still to come. */
  lemma OutIsPast(cfg: ChunkerConfig, input: seq<Tick>, n: nat, p: Progress, k: nat)
    requires n <= |input| && Tracked(cfg, input, n, p) && k < |p.out|
    ensures p.out[k].end <= n
  {
    hide InStep, OpenPart, IdlePart, Begins, DescribesFrames;
    if k + 1 < |p.out| { TrackedIsOrdered(cfg, input, n, p, k, |p.out| - 1); }
  }

  lemma {:induction false} TrackedIsOrdered(cfg: ChunkerConfig, input: seq<Tick>, n: nat, p: Progress, j: nat, k: nat)
    requires n <= |input| && Tracked(cfg, input, n, p) && j < k < |p.out|
    ensures p.out[j].end <= p.out[k].end
  {
    hide InStep, OpenPart, IdlePart, Begins, DescribesFrames;
    assert Described(cfg, input, p.out, k);
    if j + 1 < k { TrackedIsOrdered(cfg, input, n, p, j, k - 1); }
  }

  lemma NothingAhead(cfg: ChunkerConfig, input: seq<Tick>, n: nat, p: Progress)
    requires n <= |input| && Tracked(cfg, input, n, p)
    ensures !InSomeChunk(p.out, n)
  {
    hide Tracked;
    forall k: nat | k < |p.out| ensures !InChunk(p.out, k, n) { OutIsPast(cfg, input, n, p, k); }
  }

  /** Placing frame n keeps what was kept, and adds the frame itself or the pre-roll with it. */
  lemma PlacingKeeps(cfg: ChunkerConfig, input: seq<Tick>, n: nat, p: Progress, i: nat)
    requires n < |input| < TWO_32 && Tracked(cfg, input, n, p) && (p.state.active ==> p.state.gate.speaking)
    requires i <= n
    ensures Kept(p.(state := PlacedAt(cfg, input, n, p.state)), n + 1, i) <==>
      if i == n then p.state.active || Onset(cfg, input, n)
      else Kept(p, n, i) || (Onset(cfg, input, n) && n - i <= cfg.preRollFrames)
  {
    hide PlacedAt, Tracked, InSomeChunk, Onset;
    StateBefore(cfg, input, n, p);
    PlacedCounts(cfg, input, n, p);
    NothingAhead(cfg, input, n, p);
    if i < n && n - i <= cfg.preRollFrames && !InSomeChunk(p.out, i) {
      NotBehind(cfg, input, n, p, |p.out|, i);
    }
  }

  /** A chunk coming out takes the open frames with it, and no others. */
  lemma ClosingKeeps(b: AssemblerState, out: seq<Emitted>, n: nat, i: nat, c: Closed, after: AssemblerState)
    requires b.active && c.event.frameCount == b.frameCount && (after.active ==> after.frameCount == 0)
    ensures Kept(Progress(after, out + [Emitted(c, n)]), n, i) <==> Kept(Progress(b, out), n, i)
  {
    var more := out + [Emitted(c, n)];
    assert InChunk(more, |out|, i) <==> n - b.frameCount <= i < n;
    forall k: nat | k != |out| ensures InChunk(more, k, i) <==> InChunk(out, k, i) {
    }
  }

  lemma FrameKeeps(cfg: ChunkerConfig, input: seq<Tick>, n: nat, p: Progress, i: nat)
    requires n < |input| < TWO_32 && Tracked(cfg, input, n, p) && (p.state.active ==> p.state.gate.speaking)
    requires i <= n
    ensures Kept(FeedFrame(cfg, p, input[n], n), n + 1, i) <==>
      if i == n then p.state.active || Onset(cfg, input, n)
      else Kept(p, n, i) || (Onset(cfg, input, n) && n - i <= cfg.preRollFrames)
  {
    hide Tracked, Kept, Placed, Onset;
    PlacingKeeps(cfg, input, n, p, i);
    var b := PlacedAt(cfg, input, n, p.state);
    var (after, c) := FrameStep(cfg, p.state, input[n].frame, input[n].nowNs);
    if c.Some? {
      ClosingKeeps(b, p.out, n + 1, i, c.value, after);
    }
  }

  lemma FlushKeeps(p: Progress, t: Tick, n: nat, i: nat)
    ensures Kept(FeedFlush(p, t, n), n + 1, i) <==> Kept(p, n + 1, i)
  {
    hide Kept;
    if t.flushNs.Some? && p.state.active {
      var (after, c) := FlushStep(p.state, t.flushNs.value);
      ClosingKeeps(p.state, p.out, n + 1, i, c.value, after);
    }
  }

  // ------------------------------------------------------ whole runs

  lemma OpenOnlyWhileSpeaking(cfg: ChunkerConfig, input: seq<Tick>, n: nat)
    requires n <= |input|
    ensures Trace(cfg, input, n).state.active ==> Trace(cfg, input, n).state.gate.speaking
  {
    hide Placed;
  }

  /** The fate of every frame of every run, flushes and all: it is in a chunk exactly when a chunk took it in as it
      came, or a later onset reached back to it through the pre-roll. */
  lemma {:induction false} KeptExactlyWhen(cfg: ChunkerConfig, input: seq<Tick>, n: nat, i: nat)
    requires i < n <= |input| < TWO_32
    ensures Kept(Trace(cfg, input, n), n, i) <==> TakenIn(cfg, input, i) || RolledIn(cfg, input, n, i)
  {
    hide FeedFrame, FeedFlush, Tracked, Kept, Onset;
    var p := Trace(cfg, input, n - 1);
    EveryRunTracked(cfg, input, n - 1);
    OpenOnlyWhileSpeaking(cfg, input, n - 1);
    FrameKeeps(cfg, input, n - 1, p, i);
    FlushKeeps(FeedFrame(cfg, p, input[n - 1], n - 1), input[n - 1], n - 1, i);
    if i < n - 1 { KeptExactlyWhen(cfg, input, n - 1, i); }
  }

  /** For a frame of speech: it is lost exactly when it came with the gate speaking and no chunk open, as a flush
      leaves things, and no onset follows within the pre-roll. */
  lemma SpeechIsLostExactlyWhen(cfg: ChunkerConfig, input: seq<Tick>, n: nat, i: nat)
    requires i < n <= |input| < TWO_32 && InSpeech(cfg, input, i)
    ensures var a := Trace(cfg, input, i).state;
      !Kept(Trace(cfg, input, n), n, i) <==> a.gate.speaking && !a.active && !RolledIn(cfg, input, n, i)
  {
    hide Kept, Trace, Onset;
    KeptExactlyWhen(cfg, input, n, i);
    EveryRunTracked(cfg, input, i);
    OpenOnlyWhileSpeaking(cfg, input, i);
    StateBefore(cfg, input, i, Trace(cfg, input, i));
  }

  /** Without a flush a chunk is open exactly while the gate is speaking. */
  lemma OpenWhileSpeaking(cfg: ChunkerConfig, input: seq<Tick>, n: nat, a: AssemblerState)
    requires n < |input| && InStep(cfg, input, n, a) && a.active == a.gate.speaking
    ensures var b := FrameStep(cfg, a, input[n].frame, input[n].nowNs).0; b.active == b.gate.speaking
  {
    hide Placed;
    PlacedBasics(cfg, input, n, a);
  }

  lemma GateInStep(cfg: ChunkerConfig, input: seq<Tick>, n: nat)
    requires n <= |input| < TWO_32
    ensures InStep(cfg, input, n, Trace(cfg, input, n).state)
  {
    EveryRunTracked(cfg, input, n);
  }

  lemma {:induction false} ActiveIsSpeaking(cfg: ChunkerConfig, input: seq<Tick>, n: nat)
    requires n <= |input| < TWO_32 && NoFlush(input, n)
    ensures Trace(cfg, input, n).state.active == Trace(cfg, input, n).state.gate.speaking
  {
    hide FrameStep, Tracked;
    if n > 0 {
      ActiveIsSpeaking(cfg, input, n - 1);
      GateInStep(cfg, input, n - 1);
      OpenWhileSpeaking(cfg, input, n - 1, Trace(cfg, input, n - 1).state);
    }
  }

  /** Without flushes no frame heard as speech is lost: it is in a chunk that came out, or in the open one. */
  lemma SpeechIsKept(cfg: ChunkerConfig, input: seq<Tick>, n: nat, i: nat)
    requires i < n <= |input| < TWO_32 && NoFlush(input, n) && InSpeech(cfg, input, i)
    ensures Kept(Trace(cfg, input, n), n, i)
  {
    hide Kept, Trace, Onset;
    SpeechIsLostExactlyWhen(cfg, input, n, i);
    ActiveIsSpeaking(cfg, input, i);
  }

  /** A loud frame holds the gate for the hangover. */
  lemma {:induction false} HeldFor(cfg: GateConfig, heard: seq<Sample>, m: nat, j: nat)
    requires m + 1 + j <= |heard| && heard[m].loud && Run(cfg, heard, m + 1).speaking && j < cfg.silenceFrames
    ensures Run(cfg, heard, m + 1 + j).speaking && Run(cfg, heard, m + 1 + j).quietFrames <= j
  {
    if j > 0 { HeldFor(cfg, heard, m, j - 1); }
  }

  lemma FlushedIsIdle(cfg: ChunkerConfig, input: seq<Tick>, n: nat)
    requires 0 < n <= |input| && input[n - 1].flushNs.Some?
    ensures !Trace(cfg, input, n).state.active
  {
    hide FrameStep;
  }

  lemma LoudCountIsTrailing(cfg: GateConfig, heard: seq<Sample>, n: nat)
    requires n <= |heard|
    ensures Run(cfg, heard, n).loudFrames <= TrailingLoud(heard, n)
  {
  }

  /** After a loud frame m that leaves the gate speaking, the gate speaks on, or has been still long enough that the
      loud frames since are fewer by the hangover. */
  lemma {:induction false} LoudSinceHangover(cfg: GateConfig, heard: seq<Sample>, m: nat, o: nat)
    requires m < o <= |heard| && heard[m].loud && Run(cfg, heard, m + 1).speaking
    ensures Run(cfg, heard, o).speaking || TrailingLoud(heard, o) + m + cfg.silenceFrames + 1 <= o
  {
    if m + 1 < o {
      LoudSinceHangover(cfg, heard, m, o - 1);
      if !Run(cfg, heard, o).speaking && o - m - 1 < cfg.silenceFrames { HeldFor(cfg, heard, m, o - m - 1); }
    }
  }

  /** So the next onset is a hangover and a window away. */
  lemma NextOnsetIsFar(cfg: GateConfig, heard: seq<Sample>, m: nat, o: nat)
    requires m < o < |heard| && heard[m].loud && Run(cfg, heard, m + 1).speaking && OnsetAt(cfg, heard, o)
    ensures m + cfg.silenceFrames + cfg.speechFrames <= o
  {
    LoudSinceHangover(cfg, heard, m, o);
    LoudCountIsTrailing(cfg, heard, o);
  }

  /** A spell of speech cut by a flush: frame m is loud, and frame i of the same spell, m itself or after it, comes with
      no chunk open. Where the hangover and the window together outreach the pre-roll from i, no chunk of the run ever
      holds it, whatever follows. For m itself a hangover no shorter than the pre-roll is enough; a closing quiet frame
      can still be reached by an onset that comes soon after the hangover. */
  lemma FlushLosesSpeech(cfg: ChunkerConfig, input: seq<Tick>, n: nat, m: nat, i: nat)
    requires m <= i < n <= |input| < TWO_32 && !Trace(cfg, input, i).state.active
    requires Heard(cfg, input)[m].loud && GateAfter(cfg, input, m + 1).speaking && GateAfter(cfg, input, i).speaking
    requires cfg.preRollFrames + (i - m) < cfg.gate.silenceFrames + Normalised(cfg.gate).speechFrames
    ensures InSpeech(cfg, input, i) && !Kept(Trace(cfg, input, n), n, i)
  {
    hide Kept, Trace;
    SpeechIsLostExactlyWhen(cfg, input, n, i);
    GateInStep(cfg, input, i);
    forall o: nat | i < o < n && o - i <= cfg.preRollFrames ensures !Onset(cfg, input, o) {
      if Onset(cfg, input, o) { NextOnsetIsFar(Normalised(cfg.gate), Heard(cfg, input), m, o); }
    }
  }

  /** After a flush, and until the gate falls silent, every loud frame is lost so. */
  lemma LoudFramesAfterFlushAreLost(cfg: ChunkerConfig, input: seq<Tick>, n: nat, i: nat)
    requires i < n <= |input| < TWO_32 && !Trace(cfg, input, i).state.active
    requires GateAfter(cfg, input, i).speaking && Heard(cfg, input)[i].loud
    requires cfg.preRollFrames <= cfg.gate.silenceFrames
    ensures InSpeech(cfg, input, i) && !Kept(Trace(cfg, input, n), n, i)
  {
    hide Kept, Trace;
    FlushLosesSpeech(cfg, input, n, i, i);
  }

  /** A closing quiet frame is not always lost: where the hangover is no longer than the pre-roll, a loud frame right
      after it brings the quiet ones in. */
  lemma ClosingQuietIsKept(cfg: ChunkerConfig, input: seq<Tick>)
    requires |input| == 4 && input[0].flushNs.Some?
    requires forall i :: 0 <= i < 4 ==> (Heard(cfg, input)[i].loud <==> i == 0 || i == 3)
    requires cfg.gate.speechFrames <= 1 && cfg.gate.cooldownMs <= 0.0
    requires cfg.gate.silenceFrames == 2 == cfg.preRollFrames
    ensures InSpeech(cfg, input, 2) && !Trace(cfg, input, 2).state.active && Kept(Trace(cfg, input, 4), 4, 2)
  {
    hide Kept, Trace;
    var g, heard := Normalised(cfg.gate), Heard(cfg, input);
    assert Run(g, heard, 0) == IDLE;
    assert Run(g, heard, 1).speaking && Run(g, heard, 1).quietFrames == 0;
    assert Run(g, heard, 2).speaking && Run(g, heard, 2).quietFrames == 1;
    assert !Run(g, heard, 3).speaking && Run(g, heard, 3).loudFrames == 0;
    assert Onset(cfg, input, 3) && RolledIn(cfg, input, 4, 2);
    KeptExactlyWhen(cfg, input, 4, 2);
    FlushedIsIdle(cfg, input, 1);
    StaysDeaf(cfg, input, 1);
  }

  /** No chunk opens on a quiet frame. */
  lemma StaysDeaf(cfg: ChunkerConfig, input: seq<Tick>, n: nat)
    requires n < |input| < TWO_32 && !Trace(cfg, input, n).state.active && !Heard(cfg, input)[n].loud
    ensures !Trace(cfg, input, n + 1).state.active
  {
    hide Placed;
    GateInStep(cfg, input, n);
    PlacedBasics(cfg, input, n, Trace(cfg, input, n).state);
  }

  /** And there is such a run: two loud frames with a flush between them, one being enough for onset. */
  lemma TwoLoudFramesAndAFlush(cfg: ChunkerConfig, input: seq<Tick>)
    requires |input| == 2 && input[0].flushNs.Some?
    requires Heard(cfg, input)[0].loud && Heard(cfg, input)[1].loud
    requires cfg.gate.speechFrames <= 1 <= cfg.gate.silenceFrames && cfg.preRollFrames <= cfg.gate.silenceFrames
    ensures InSpeech(cfg, input, 1) && !Kept(Trace(cfg, input, 2), 2, 1)
  {
    hide Kept, Trace;
    assert GateAfter(cfg, input, 0) == Gate.IDLE;
    FlushedIsIdle(cfg, input, 1);
    LoudFramesAfterFlushAreLost(cfg, input, 2, 1);
  }

  // ------------------------------------------------------ the cap

  /** No chunk outgrows its time, in nanoseconds: after every frame the open one is younger than the cap, unless it
      opened just then. */
  lemma OpenChunkIsYoung(cfg: ChunkerConfig, input: seq<Tick>, n: nat)
    requires 0 < n <= |input|
    ensures var a, now := Trace(cfg, input, n).state, input[n - 1].nowNs;
      a.active ==> a.tSpeechStartNs == now || Sub64(now, a.tSpeechStartNs) as real < cfg.maxChunkMs * 1000000.0
  {
    hide Placed;
  }

  /** And a chunk cut for its length had reached it. */
  lemma {:induction false} CutChunkIsOld(cfg: ChunkerConfig, input: seq<Tick>, n: nat, k: nat)
    requires n <= |input| && k < |Trace(cfg, input, n).out|
    ensures var e := Trace(cfg, input, n).out[k].closed.event;
      e.reason == MaxLength ==> Sub64(e.tEndpointNs, e.tSpeechStartNs) as real >= cfg.maxChunkMs * 1000000.0
  {
    hide Placed;
    if n > 0 && k < |Trace(cfg, input, n - 1).out| { CutChunkIsOld(cfg, input, n - 1, k); }
  }

  lemma MillisApart(a: uint64, b: uint64)
    ensures (Millis(b) - Millis(a)) * 1000000.0 == (b as int - a) as real
    ensures a <= b ==> Millis(a) <= Millis(b)
  {
  }

  /** The cooldown, in nanoseconds: with a clock that does not go back, any two onsets are that far apart. */
  lemma OnsetsAreSpacedInTime(cfg: ChunkerConfig, input: seq<Tick>, i: nat, j: nat)
    requires i < j < |input| && Onset(cfg, input, i) && Onset(cfg, input, j) && cfg.gate.cooldownMs > 0.0
    requires forall a, b :: 0 <= a <= b < |input| ==> input[a].nowNs <= input[b].nowNs
    ensures (input[j].nowNs as int - input[i].nowNs) as real >= cfg.gate.cooldownMs * 1000000.0
  {
    hide Millis;
    var heard := Heard(cfg, input);
    forall a, b | 0 <= a <= b < |heard| ensures heard[a].nowMs <= heard[b].nowMs {
      MillisApart(input[a].nowNs, input[b].nowNs);
    }
    OnsetsAreSpaced(Normalised(cfg.gate), heard, i, j);
    MillisApart(input[i].nowNs, input[j].nowNs);
  }

  // ------------------------------------------------------ small runs

  /** One loud frame is onset, and opens a chunk that outlives it. */
  predicate Eager(cfg: ChunkerConfig, f: AudioFrame) {
    && Loud(Normalised(cfg.gate), cfg.energyOf(f))
    && cfg.gate.speechFrames <= 1 && cfg.gate.silenceFrames >= 1 && cfg.maxChunkMs > 0.0
  }

  lemma LoudFrameOpens(cfg: ChunkerConfig, f: AudioFrame, nowNs: uint64)
    requires Eager(cfg, f)
    ensures var (a, c) := FrameStep(cfg, FRESH, f, nowNs);
      && c == None && a.active && a.gate.speaking && a.tSpeechStartNs == nowNs
      && a.frameCount == 1 && a.firstSeq == a.lastSeq == f.hdr.seqNo
  {
    assert Gated(cfg, NoteSeq(FRESH, f.hdr.seqNo), f, nowNs) == (GateState(1, 0, true, true, Millis(nowNs)), true);
    assert Millis(Sub64(nowNs, nowNs)) == 0.0;
  }

  lemma LoudFrameCuts(cfg: ChunkerConfig, a: AssemblerState, f: AudioFrame, nowNs: uint64)
    requires Loud(Normalised(cfg.gate), cfg.energyOf(f)) && a.active && a.gate.speaking
    requires cfg.maxChunkMs <= Millis(Sub64(nowNs, a.tSpeechStartNs))
    ensures var (b, c) := FrameStep(cfg, a, f, nowNs);
      && c.Some? && c.value.event.reason == MaxLength && c.value.event.frameCount == Inc32(a.frameCount)
      && b.active && b.frameCount == 0
  {
  }

  /** The event of no frames, on any input of two loud ticks the second of which reaches the cap and is then flushed. */
  lemma FlushAfterCutIsEmpty(cfg: ChunkerConfig, input: seq<Tick>)
    requires |input| == 2 && input[0].flushNs == None && input[1].flushNs.Some?
    requires Eager(cfg, input[0].frame) && Eager(cfg, input[1].frame)
    requires cfg.maxChunkMs <= Millis(Sub64(input[1].nowNs, input[0].nowNs))
    ensures var out := Trace(cfg, input, 2).out;
      && |out| == 2
      && out[0].closed.event.reason == MaxLength && out[0].closed.event.frameCount == 2
      && out[1].closed.event.reason == StreamEnd && out[1].closed.event.frameCount == 0
  {
    hide FrameStep;
    assert Trace(cfg, input, 0) == Progress(FRESH, []);
    LoudFrameOpens(cfg, input[0].frame, input[0].nowNs);
    LoudFrameCuts(cfg, Trace(cfg, input, 1).state, input[1].frame, input[1].nowNs);
  }
}
