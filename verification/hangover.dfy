// The hangover knob, compared across two runs over the same audio: a longer
// hold never cuts more, and never opens where a shorter one would not.

module HangoverKnob {
  import opened Gate

  /** Two plain gates that differ in nothing but the hangover, the second holding at least as long. */
  predicate LongerHold(short: GateConfig, long: GateConfig) {
    && Plain(short) && Plain(long)
    && long == short.(silenceFrames := long.silenceFrames)
    && short.silenceFrames <= long.silenceFrames
  }

  lemma SpokenLonger(input: seq<Sample>, n: nat, s: nat, h: nat, h': nat)
    requires n <= |input| && h <= h' && Spoken(input, n, s, h)
    ensures Spoken(input, n, s, h')
  {
    var m: nat :| SpokenSince(input, m, n, s, h);
    forall a: nat | m <= a && a + h' <= n ensures !QuietRun(input, a, h') {
      assert !QuietRun(input, a, h);
    }
    assert SpokenSince(input, m, n, s, h');
  }

  /** Onset is declared on the frame that fills the window while not speaking. */
  lemma OnsetRule(cfg: GateConfig, input: seq<Sample>, n: nat)
    requires n < |input| && Plain(cfg)
    ensures OnsetAt(cfg, input, n) <==>
      !Run(cfg, input, n).speaking && TrailingLoud(input, n + 1) >= cfg.speechFrames
    ensures OnsetAt(cfg, input, n) <==> !Run(cfg, input, n).speaking && Run(cfg, input, n + 1).speaking
  {
    SpeakingRule(cfg, input, n);
    SpeakingRule(cfg, input, n + 1);
  }

  /** Wherever the shorter hold is still speaking so is the longer; wherever the longer opens, so does the shorter. */
  lemma LongerHoldSpeaksMore(short: GateConfig, long: GateConfig, input: seq<Sample>, n: nat)
    requires n <= |input| && LongerHold(short, long)
    ensures Run(short, input, n).speaking ==> Run(long, input, n).speaking
    ensures n < |input| && OnsetAt(long, input, n) ==> OnsetAt(short, input, n)
  {
    SpeakingRule(short, input, n);
    SpeakingRule(long, input, n);
    if Run(short, input, n).speaking {
      SpokenLonger(input, n, short.speechFrames, short.silenceFrames, long.silenceFrames);
    }
    if n < |input| {
      OnsetRule(short, input, n);
      OnsetRule(long, input, n);
    }
  }

  function Onsets(cfg: GateConfig, input: seq<Sample>, n: nat): nat
    requires n <= |input|
  {
    if n == 0 then 0 else Onsets(cfg, input, n - 1) + if OnsetAt(cfg, input, n - 1) then 1 else 0
  }

  function Endpoints(cfg: GateConfig, input: seq<Sample>, n: nat): nat
    requires n <= |input|
  {
    if n == 0 then 0 else Endpoints(cfg, input, n - 1) + if EndpointAt(cfg, input, n - 1) then 1 else 0
  }

  /** Every spell of speech that opened has closed, but for the one still open. */
  lemma {:induction false} OnsetsMatchEndpoints(cfg: GateConfig, input: seq<Sample>, n: nat)
    requires n <= |input| && Plain(cfg)
    ensures Onsets(cfg, input, n) == Endpoints(cfg, input, n) + if Run(cfg, input, n).speaking then 1 else 0
  {
    if n > 0 {
      OnsetsMatchEndpoints(cfg, input, n - 1);
      OnsetRule(cfg, input, n - 1);
    }
  }

  lemma {:induction false} FewerOnsets(short: GateConfig, long: GateConfig, input: seq<Sample>, n: nat)
    requires n <= |input| && LongerHold(short, long)
    ensures Onsets(long, input, n) <= Onsets(short, input, n)
  {
    if n > 0 {
      FewerOnsets(short, long, input, n - 1);
      LongerHoldSpeaksMore(short, long, input, n - 1);
    }
  }

  /** The number of endpoints never rises as the hangover grows, at any point of any input. */
  lemma LongerHoldCutsLess(short: GateConfig, long: GateConfig, input: seq<Sample>, n: nat)
    requires n <= |input| && LongerHold(short, long)
    ensures Endpoints(long, input, n) <= Endpoints(short, input, n)
  {
    FewerOnsets(short, long, input, n);
    OnsetsMatchEndpoints(short, input, n);
    OnsetsMatchEndpoints(long, input, n);
    LongerHoldSpeaksMore(short, long, input, n);
  }
}
