// From samples to speech: which frames are loud, in terms of the samples they
// carry, and what a run of loud or silent frames does.

module Loudness {
  import opened Words
  import opened Audio
  import Gate
  import opened Chunker
  import opened Slices
  import opened Coverage
  import opened Codec
  import opened Energy

  const PCM16_LE: uint16 := 0
  const MULAW8: uint16 := 1

  /** The samples a frame carries. */
  function SamplesOf(f: AudioFrame): seq<int16> {
    if f.hdr.format == MULAW8 then MulawSamples(AudioOf(f)) else PcmSamples(AudioOf(f))
  }

  function Sq(x: real): real { x * x }

  /** e is the normalised peak and RMS of the samples: the RMS is the root of the mean square, and 0 of no samples. */
  predicate IsEnergyOf(e: Gate.AudioEnergy, s: seq<int16>) {
    && e.peakNorm * 32768.0 == Peak(s) as real
    && e.rmsNorm >= 0.0
    && (if s == [] then e.rmsNorm == 0.0
        else Sq(e.rmsNorm * 32768.0) * |s| as real == SumSquares(s) as real)
  }

  /** What the assembler takes for a frame's energy is that of its samples. */
  ghost predicate Measures(cfg: ChunkerConfig) {
    forall f: AudioFrame :: IsEnergyOf(cfg.energyOf(f), SamplesOf(f))
  }

  // ------------------------------------------------------ one frame

  /** Some sample reaches the fraction t of full scale; with no samples, the peak is 0. */
  ghost predicate PeakReaches(s: seq<int16>, t: real) {
    if s == [] then t <= 0.0 else exists x :: x in s && Abs(x) as real >= t * 32768.0
  }

  /** The mean square reaches that of the fraction t of full scale. */
  predicate RmsReaches(s: seq<int16>, t: real) {
    t <= 0.0 || (s != [] && SumSquares(s) as real >= Sq(t * 32768.0) * |s| as real)
  }

  lemma PeakArm(e: Gate.AudioEnergy, s: seq<int16>, t: real)
    requires IsEnergyOf(e, s)
    ensures e.peakNorm >= t <==> PeakReaches(s, t)
  {
    hide SumSquares;
    if s != [] {
      var i := PeakIsReached(s);
      assert s[i] in s;
    } else {
      NoSamples();
    }
  }

  lemma SquaresOrder(a: real, b: real)
    requires 0.0 <= a && 0.0 <= b
    ensures a >= b <==> Sq(a) >= Sq(b)
  {
    if a >= b {
      assert (a - b) * (a + b) >= 0.0;
    } else {
      var d, s := b - a, a + b;
      assert d > 0.0 && s > 0.0;
      assert d * s > 0.0;
    }
    assert (a - b) * (a + b) == a * a - b * b;
  }

  lemma ScaledOrder(a: real, b: real, n: real)
    requires n > 0.0
    ensures a >= b <==> a * n >= b * n
  {
    if a >= b { assert (a - b) * n >= 0.0; } else { assert (b - a) * n > 0.0; }
  }

  lemma RmsArm(e: Gate.AudioEnergy, s: seq<int16>, t: real)
    requires IsEnergyOf(e, s)
    ensures e.rmsNorm >= t <==> RmsReaches(s, t)
  {
    hide SumSquares, Peak, Sq;
    if t > 0.0 && s != [] {
      var a, b := e.rmsNorm * 32768.0, t * 32768.0;
      SquaresOrder(a, b);
      ScaledOrder(Sq(a), Sq(b), |s| as real);
    }
  }

  /** A frame is loud exactly when its samples reach one of the thresholds that are set. */
  ghost predicate Reaches(g: Gate.GateConfig, s: seq<int16>) {
    || (g.peakThreshold.Some? && PeakReaches(s, g.peakThreshold.value))
    || (g.rmsThreshold.Some? && RmsReaches(s, g.rmsThreshold.value))
  }

  lemma LoudExactlyWhen(g: Gate.GateConfig, e: Gate.AudioEnergy, s: seq<int16>)
    requires IsEnergyOf(e, s)
    ensures Gate.Loud(g, e) <==> Reaches(g, s)
    ensures g.peakThreshold == None && g.rmsThreshold == None ==> !Gate.Loud(g, e)
  {
    hide PeakReaches, RmsReaches, IsEnergyOf;
    if g.peakThreshold.Some? { PeakArm(e, s, g.peakThreshold.value); }
    if g.rmsThreshold.Some? { RmsArm(e, s, g.rmsThreshold.value); }
  }

  predicate Silent(s: seq<int16>) { forall x :: x in s ==> x == 0 }

  /** The thresholds that are set are above nothing. */
  predicate PositiveThresholds(g: Gate.GateConfig) {
    && (g.peakThreshold.Some? ==> g.peakThreshold.value > 0.0)
    && (g.rmsThreshold.Some? ==> g.rmsThreshold.value > 0.0)
  }

  lemma {:induction false} SilenceHasNoSquares(s: seq<int16>)
    requires Silent(s)
    ensures SumSquares(s) == 0
  {
    if s != [] {
      var rest, last := s[..|s| - 1], s[|s| - 1];
      assert s == rest + [last];
      assert last in s && forall x :: x in rest ==> x in s;
      SilenceHasNoSquares(rest);
    }
  }

  lemma SilenceHasNoPeak(s: seq<int16>, t: real)
    requires Silent(s) && t > 0.0
    ensures !PeakReaches(s, t)
  {
  }

  lemma SilenceHasNoRms(s: seq<int16>, t: real)
    requires Silent(s) && t > 0.0
    ensures !RmsReaches(s, t)
  {
    hide SumSquares, Sq;
    SilenceHasNoSquares(s);
    if s != [] {
      SqIsPositive(t * 32768.0);
      ProductIsPositive(Sq(t * 32768.0), |s| as real);
    }
  }

  lemma SqIsPositive(x: real)
    requires x > 0.0
    ensures Sq(x) > 0.0
  {
    var half := x / 2.0;
    assert half * x > 0.0;
    assert Sq(x) == half * x + half * x;
  }

  lemma ProductIsPositive(a: real, b: real)
    requires a > 0.0 && b > 0.0
    ensures a * b > 0.0
  {
  }

  lemma SilenceReachesNothing(g: Gate.GateConfig, s: seq<int16>)
    requires Silent(s) && PositiveThresholds(g)
    ensures !Reaches(g, s)
  {
    hide PeakReaches, RmsReaches;
    if g.peakThreshold.Some? { SilenceHasNoPeak(s, g.peakThreshold.value); }
    if g.rmsThreshold.Some? { SilenceHasNoRms(s, g.rmsThreshold.value); }
  }

  // ------------------------------------------------------ runs

  lemma HeardLoud(cfg: ChunkerConfig, input: seq<Tick>, i: nat)
    requires Measures(cfg) && i < |input|
    ensures Heard(cfg, input)[i].loud <==> Reaches(cfg.gate, SamplesOf(input[i].frame))
  {
    hide IsEnergyOf, SamplesOf, Reaches;
    var f := input[i].frame;
    assert IsEnergyOf(cfg.energyOf(f), SamplesOf(f));
    LoudExactlyWhen(Gate.Normalised(cfg.gate), cfg.energyOf(f), SamplesOf(f));
    SameThresholds(cfg.gate, SamplesOf(f));
  }

  lemma SameThresholds(g: Gate.GateConfig, s: seq<int16>)
    ensures Reaches(Gate.Normalised(g), s) <==> Reaches(g, s)
  {
  }

  /** Silence opens no chunk: with positive thresholds, a run of frames of zero samples emits nothing. */
  lemma {:induction false} SilenceEmitsNothing(cfg: ChunkerConfig, input: seq<Tick>, n: nat)
    requires n <= |input| < TWO_32 && Measures(cfg) && PositiveThresholds(cfg.gate)
    requires forall i :: 0 <= i < n ==> Silent(SamplesOf(input[i].frame))
    ensures !Trace(cfg, input, n).state.active && Trace(cfg, input, n).out == []
  {
    hide Measures, Placed, SamplesOf, Silent, Reaches;
    if n > 0 {
      var p := Trace(cfg, input, n - 1);
      SilenceEmitsNothing(cfg, input, n - 1);
      HeardLoud(cfg, input, n - 1);
      SilenceReachesNothing(cfg.gate, SamplesOf(input[n - 1].frame));
      GateInStep(cfg, input, n - 1);
      PlacedBasics(cfg, input, n - 1, p.state);
    }
  }

  /** Speech opens one: under a gate without cooldown, and without flushes, the last of as many consecutive frames
      reaching a threshold as the window takes is in a chunk, whatever came before. */
  lemma SpeechIsHeard(cfg: ChunkerConfig, input: seq<Tick>, n: nat, m: nat)
    requires Gate.Normalised(cfg.gate).speechFrames <= m <= n <= |input| < TWO_32
    requires Measures(cfg) && Gate.Plain(Gate.Normalised(cfg.gate)) && NoFlush(input, n)
    requires forall i :: m - Gate.Normalised(cfg.gate).speechFrames <= i < m ==>
      Reaches(cfg.gate, SamplesOf(input[i].frame))
    ensures Kept(Trace(cfg, input, n), n, m - 1)
  {
    hide Measures, SamplesOf, Reaches, Kept, Trace;
    var g, heard := Gate.Normalised(cfg.gate), Heard(cfg, input);
    forall k | m - g.speechFrames <= k < m ensures heard[k].loud { HeardLoud(cfg, input, k); }
    WindowIsSpeech(cfg, input, m);
    SpeechIsKept(cfg, input, n, m - 1);
  }

  lemma WindowIsSpeech(cfg: ChunkerConfig, input: seq<Tick>, m: nat)
    requires Gate.Plain(Gate.Normalised(cfg.gate)) && Gate.Normalised(cfg.gate).speechFrames <= m <= |input|
    requires forall k :: m - Gate.Normalised(cfg.gate).speechFrames <= k < m ==> Heard(cfg, input)[k].loud
    ensures InSpeech(cfg, input, m - 1)
  {
    var g, heard := Gate.Normalised(cfg.gate), Heard(cfg, input);
    assert Gate.SpokenSince(heard, m, m, g.speechFrames, g.silenceFrames);
    Gate.SpeakingRule(g, heard, m);
    assert Gate.Run(g, heard, m).speaking;
  }
}
