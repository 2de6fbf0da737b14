// The speech gate: a hysteresis machine over loud and quiet frames, and the
// declarative rule that its counters implement.

module Gate {
  import opened Words
  import opened Audio

  datatype AudioEnergy = AudioEnergy(peakNorm: real, rmsNorm: real)

  datatype GateConfig = GateConfig(
    rmsThreshold: Option<real>,
    peakThreshold: Option<real>,
    speechFrames: uint32,
    silenceFrames: uint32,
    cooldownMs: real)

  datatype GateState = GateState(
    loudFrames: uint32,
    quietFrames: uint32,
    speaking: bool,
    hasTriggered: bool,
    lastTriggerMs: real)

  const IDLE := GateState(0, 0, false, false, 0.0)

  function Normalised(cfg: GateConfig): GateConfig {
    if cfg.speechFrames < 1 then cfg.(speechFrames := 1) else cfg
  }

  predicate Loud(cfg: GateConfig, e: AudioEnergy) {
    || (cfg.rmsThreshold.Some? && e.rmsNorm >= cfg.rmsThreshold.value)
    || (cfg.peakThreshold.Some? && e.peakNorm >= cfg.peakThreshold.value)
  }

  predicate CoolingDown(cfg: GateConfig, g: GateState, nowMs: real) {
    cfg.cooldownMs > 0.0 && g.hasTriggered && nowMs - g.lastTriggerMs < cfg.cooldownMs
  }

  /** One frame through the gate: the next state, and whether speech onset is declared on it. */
  function Step(cfg: GateConfig, g: GateState, loud: bool, nowMs: real): (GateState, bool) {
    if !loud then
      var quiet := if g.speaking then Inc32(g.quietFrames) else g.quietFrames;
      (g.(loudFrames := 0, quietFrames := quiet,
          speaking := g.speaking && quiet < cfg.silenceFrames), false)
    else
      var heard := g.(quietFrames := 0, loudFrames := Inc32(g.loudFrames));
      if g.speaking || heard.loudFrames < cfg.speechFrames || CoolingDown(cfg, g, nowMs) then
        (heard, false)
      else
        var speaking := cfg.silenceFrames > 0;
        (GateState(if speaking then heard.loudFrames else 0, 0, speaking, true, nowMs), true)
  }

  class SpeechThresholdGate {
    const cfg: GateConfig
    var loudFrames: uint32
    var quietFrames: uint32
    var speaking: bool
    var hasTriggered: bool
    var lastTriggerMs: real

    ghost function State(): GateState
      reads this
    {
      GateState(loudFrames, quietFrames, speaking, hasTriggered, lastTriggerMs)
    }

    constructor (config: GateConfig)
      ensures cfg == Normalised(config)
      ensures State() == IDLE
    {
      cfg := if config.speechFrames < 1 then config.(speechFrames := 1) else config;
      loudFrames, quietFrames := 0, 0;
      speaking, hasTriggered, lastTriggerMs := false, false, 0.0;
    }

    method Accept(energy: AudioEnergy, nowMs: real) returns (onset: bool)
      modifies this
      ensures (State(), onset) == Step(cfg, old(State()), Loud(cfg, energy), nowMs)
    {
      var loud := Loud(cfg, energy);
      if !loud {
        loudFrames := 0;
        if speaking {
          quietFrames := Inc32(quietFrames);
          if quietFrames >= cfg.silenceFrames { speaking := false; }
        }
        return false;
      }
      quietFrames := 0;
      loudFrames := Inc32(loudFrames);
      if speaking || loudFrames < cfg.speechFrames { return false; }
      if cfg.cooldownMs > 0.0 && hasTriggered && nowMs - lastTriggerMs < cfg.cooldownMs { return false; }
      lastTriggerMs := nowMs;
      hasTriggered := true;
      speaking := cfg.silenceFrames > 0;
      if !speaking { loudFrames := 0; }
      return true;
    }

    method Reset()
      modifies this
      ensures State() == IDLE
    {
      loudFrames, quietFrames := 0, 0;
      speaking, hasTriggered, lastTriggerMs := false, false, 0.0;
    }
  }

  // ------------------------------------------------------ whole runs

  datatype Sample = Sample(loud: bool, nowMs: real)

  /** The gate after the first n samples, from idle. */
  function Run(cfg: GateConfig, input: seq<Sample>, n: nat): GateState
    requires n <= |input|
  {
    if n == 0 then IDLE
    else Step(cfg, Run(cfg, input, n - 1), input[n - 1].loud, input[n - 1].nowMs).0
  }

  /** Whether sample n is the one onset is declared on. */
  predicate OnsetAt(cfg: GateConfig, input: seq<Sample>, n: nat)
    requires n < |input|
  {
    Step(cfg, Run(cfg, input, n), input[n].loud, input[n].nowMs).1
  }

  /** Whether sample n is the one speech is declared over on. */
  predicate EndpointAt(cfg: GateConfig, input: seq<Sample>, n: nat)
    requires n < |input|
  {
    Run(cfg, input, n).speaking && !Run(cfg, input, n + 1).speaking
  }

  /** No cooldown, and a hangover of at least one frame. */
  predicate Plain(cfg: GateConfig) {
    cfg.cooldownMs == 0.0 && 1 <= cfg.speechFrames && 1 <= cfg.silenceFrames
  }

  // ------------------------------------------------------ the rule

  ghost predicate AllLoud(input: seq<Sample>, a: nat, b: nat)
    requires b <= |input|
  {
    forall k :: a <= k < b ==> input[k].loud
  }

  ghost predicate AllQuiet(input: seq<Sample>, a: nat, b: nat)
    requires b <= |input|
  {
    forall k :: a <= k < b ==> !input[k].loud
  }

  ghost predicate QuietRun(input: seq<Sample>, a: nat, h: nat)
    requires a + h <= |input|
  {
    AllQuiet(input, a, a + h)
  }

  /** No h consecutive quiet samples between m and n. */
  ghost predicate Sustained(input: seq<Sample>, m: nat, n: nat, h: nat)
    requires n <= |input|
  {
    forall a: nat :: m <= a && a + h <= n ==> !QuietRun(input, a, h)
  }

  ghost predicate SpokenSince(input: seq<Sample>, m: nat, n: nat, s: nat, h: nat)
    requires n <= |input|
  {
    s <= m <= n && AllLoud(input, m - s, m) && Sustained(input, m, n, h)
  }

  /** Some window of s loud samples is followed by no h consecutive quiet ones. */
  ghost predicate Spoken(input: seq<Sample>, n: nat, s: nat, h: nat)
    requires n <= |input|
  {
    exists m: nat :: SpokenSince(input, m, n, s, h)
  }

  function TrailingLoud(input: seq<Sample>, n: nat): (r: nat)
    requires n <= |input|
    ensures r <= n && AllLoud(input, n - r, n)
    ensures r < n ==> !input[n - r - 1].loud
  {
    if n == 0 || !input[n - 1].loud then 0 else TrailingLoud(input, n - 1) + 1
  }

  function TrailingQuiet(input: seq<Sample>, n: nat): (r: nat)
    requires n <= |input|
    ensures r <= n && AllQuiet(input, n - r, n)
    ensures r < n ==> input[n - r - 1].loud
  {
    if n == 0 || input[n - 1].loud then 0 else TrailingQuiet(input, n - 1) + 1
  }

  /** What the counters count, and what they add up to. */
  ghost predicate Explained(cfg: GateConfig, input: seq<Sample>, n: nat)
    requires n <= |input|
  {
    var g := Run(cfg, input, n);
    && (g.speaking ==> g.quietFrames == TrailingQuiet(input, n) < cfg.silenceFrames)
    && (!g.speaking ==> g.loudFrames == TrailingLoud(input, n) < cfg.speechFrames)
    && (g.speaking <==> Spoken(input, n, cfg.speechFrames, cfg.silenceFrames))
  }

  lemma SpokenShorter(input: seq<Sample>, m: nat, n: nat, s: nat, h: nat)
    requires n < |input| && m <= n && SpokenSince(input, m, n + 1, s, h)
    ensures SpokenSince(input, m, n, s, h)
  {
  }

  /** A loud sample keeps every spell of speech alive, and can only start one by filling a window. */
  lemma SpokenAfterLoud(input: seq<Sample>, n: nat, s: nat, h: nat)
    requires n < |input| && 1 <= s && 1 <= h && input[n].loud
    ensures Spoken(input, n + 1, s, h) <==> Spoken(input, n, s, h) || TrailingLoud(input, n + 1) >= s
  {
    if Spoken(input, n, s, h) {
      var m: nat :| SpokenSince(input, m, n, s, h);
      assert forall a: nat :: m <= a && a + h == n + 1 ==> !QuietRun(input, a, h) by {
        assert input[n].loud;
      }
      assert SpokenSince(input, m, n + 1, s, h);
    }
    if TrailingLoud(input, n + 1) >= s {
      assert SpokenSince(input, n + 1, n + 1, s, h);
    } else if Spoken(input, n + 1, s, h) {
      var m: nat :| SpokenSince(input, m, n + 1, s, h);
      assert m <= n;
      SpokenShorter(input, m, n, s, h);
    }
  }

  /** A quiet sample ends a spell of speech exactly when it completes the hangover. */
  lemma SpokenAfterQuiet(input: seq<Sample>, n: nat, s: nat, h: nat)
    requires n < |input| && 1 <= s && 1 <= h && !input[n].loud
    ensures Spoken(input, n + 1, s, h) <==> Spoken(input, n, s, h) && TrailingQuiet(input, n + 1) < h
  {
    var q := TrailingQuiet(input, n + 1);
    if Spoken(input, n + 1, s, h) {
      var m: nat :| SpokenSince(input, m, n + 1, s, h);
      assert m <= n && input[m - 1].loud;
      SpokenShorter(input, m, n, s, h);
      if q >= h { assert QuietRun(input, n + 1 - h, h); }
    }
    if Spoken(input, n, s, h) && q < h {
      var m: nat :| SpokenSince(input, m, n, s, h);
      forall a: nat | m <= a && a + h == n + 1 ensures !QuietRun(input, a, h) {
        assert a <= n - q <= n && input[n - q].loud;
      }
      assert SpokenSince(input, m, n + 1, s, h);
    }
  }

  /** The gate is speaking exactly when the rule says so, after every frame of every run. */
  lemma {:induction false} SpeakingRule(cfg: GateConfig, input: seq<Sample>, n: nat)
    requires n <= |input| && Plain(cfg)
    ensures Explained(cfg, input, n)
    ensures Run(cfg, input, n).speaking <==> Spoken(input, n, cfg.speechFrames, cfg.silenceFrames)
  {
    hide Spoken;
    if n > 0 {
      SpeakingRule(cfg, input, n - 1);
      if input[n - 1].loud {
        SpokenAfterLoud(input, n - 1, cfg.speechFrames, cfg.silenceFrames);
      } else {
        SpokenAfterQuiet(input, n - 1, cfg.speechFrames, cfg.silenceFrames);
      }
    } else {
      NothingSpoken(input, cfg.speechFrames, cfg.silenceFrames);
    }
  }

  lemma NothingSpoken(input: seq<Sample>, s: nat, h: nat)
    requires 1 <= s
    ensures !Spoken(input, 0, s, h)
  {
  }

  /** Speech ends on the silenceFrames-th quiet frame after a loud one, and only there. */
  lemma EndpointRule(cfg: GateConfig, input: seq<Sample>, n: nat)
    requires n < |input| && Plain(cfg)
    ensures EndpointAt(cfg, input, n) <==>
      Run(cfg, input, n).speaking && TrailingQuiet(input, n + 1) == cfg.silenceFrames
    ensures EndpointAt(cfg, input, n) ==>
      && cfg.silenceFrames <= n
      && input[n - cfg.silenceFrames].loud
      && AllQuiet(input, n + 1 - cfg.silenceFrames, n + 1)
  {
    SpeakingRule(cfg, input, n);
    SpeakingRule(cfg, input, n + 1);
    if EndpointAt(cfg, input, n) {
      var m: nat :| SpokenSince(input, m, n, cfg.speechFrames, cfg.silenceFrames);
      assert input[m - 1].loud;
    }
  }

  // ------------------------------------------------------ cooldown

  /** Sample i is the last before n that onset was declared on. */
  ghost predicate LastOnset(cfg: GateConfig, input: seq<Sample>, i: nat, n: nat)
    requires n <= |input|
  {
    i < n && OnsetAt(cfg, input, i) && forall j :: i < j < n ==> !OnsetAt(cfg, input, j)
  }

  lemma TriggerStep(cfg: GateConfig, input: seq<Sample>, m: nat)
    requires m < |input|
    ensures var g, h := Run(cfg, input, m), Run(cfg, input, m + 1);
      if OnsetAt(cfg, input, m) then h.hasTriggered && h.lastTriggerMs == input[m].nowMs
      else h.hasTriggered == g.hasTriggered && h.lastTriggerMs == g.lastTriggerMs
  {
  }

  lemma LastOnsetStep(cfg: GateConfig, input: seq<Sample>, i: nat, m: nat)
    requires m < |input|
    ensures LastOnset(cfg, input, i, m + 1) <==>
      if OnsetAt(cfg, input, m) then i == m else LastOnset(cfg, input, i, m)
  {
    hide OnsetAt;
  }

  /** The gate remembers when its last onset was, and whether there was one. */
  lemma {:induction false} TriggerIsLastOnset(cfg: GateConfig, input: seq<Sample>, n: nat)
    requires n <= |input|
    ensures Run(cfg, input, n).hasTriggered <==> exists i: nat :: LastOnset(cfg, input, i, n)
    ensures forall i: nat :: LastOnset(cfg, input, i, n) ==> Run(cfg, input, n).lastTriggerMs == input[i].nowMs
  {
    if n > 0 {
      hide Run, OnsetAt, LastOnset;
      var m := n - 1;
      TriggerIsLastOnset(cfg, input, m);
      TriggerStep(cfg, input, m);
      LastOnsetStep(cfg, input, m, m);
      forall i: nat ensures LastOnset(cfg, input, i, n) <==>
        if OnsetAt(cfg, input, m) then i == m else LastOnset(cfg, input, i, m)
      {
        LastOnsetStep(cfg, input, i, m);
      }
    }
  }

  /** One onset and the next are a cooldown apart. */
  lemma NextOnsetWaits(cfg: GateConfig, input: seq<Sample>, i: nat, j: nat)
    requires j < |input| && LastOnset(cfg, input, i, j) && OnsetAt(cfg, input, j)
    ensures cfg.cooldownMs > 0.0 ==> input[j].nowMs - input[i].nowMs >= cfg.cooldownMs
  {
    TriggerIsLastOnset(cfg, input, j);
  }

  /** And so, where the clock does not go back, are any two. */
  lemma OnsetsAreSpaced(cfg: GateConfig, input: seq<Sample>, i: nat, j: nat)
    requires i < j < |input| && OnsetAt(cfg, input, i) && OnsetAt(cfg, input, j) && cfg.cooldownMs > 0.0
    requires forall a, b :: 0 <= a <= b < |input| ==> input[a].nowMs <= input[b].nowMs
    ensures input[j].nowMs - input[i].nowMs >= cfg.cooldownMs
  {
    var k := LatestOnset(cfg, input, i, j);
    NextOnsetWaits(cfg, input, k, j);
  }

  lemma {:induction false} LatestOnset(cfg: GateConfig, input: seq<Sample>, i: nat, n: nat) returns (k: nat)
    requires i < n <= |input| && OnsetAt(cfg, input, i)
    ensures i <= k && LastOnset(cfg, input, k, n)
    decreases n
  {
    if i == n - 1 || OnsetAt(cfg, input, n - 1) { k := n - 1; } else { k := LatestOnset(cfg, input, i, n - 1); }
  }

  // ------------------------------------------------------ any gate

  /** The cooldown of the last onset before sample n, if there was one, is over. */
  ghost predicate CooledDown(cfg: GateConfig, input: seq<Sample>, n: nat)
    requires n < |input|
  {
    cfg.cooldownMs > 0.0 ==>
      forall i: nat :: LastOnset(cfg, input, i, n) ==> input[n].nowMs - input[i].nowMs >= cfg.cooldownMs
  }

  lemma CoolingIsCooldown(cfg: GateConfig, input: seq<Sample>, n: nat)
    requires n < |input|
    ensures CoolingDown(cfg, Run(cfg, input, n), input[n].nowMs) <==> !CooledDown(cfg, input, n)
  {
    hide Run, LastOnset;
    TriggerIsLastOnset(cfg, input, n);
  }

  /** What the counters count, under any gate that holds. */
  lemma {:induction false} CountersCount(cfg: GateConfig, input: seq<Sample>, n: nat)
    requires n <= |input| < TWO_32 && 1 <= cfg.silenceFrames
    ensures var g := Run(cfg, input, n);
      && g.loudFrames == TrailingLoud(input, n)
      && (g.speaking ==> g.quietFrames == TrailingQuiet(input, n) < cfg.silenceFrames)
  {
    if n > 0 { CountersCount(cfg, input, n - 1); }
  }

  /** The whole gate, cooldown and all: onset is declared exactly when the window fills while the gate is not speaking
      and the last cooldown is over; and it speaks on until the hangover fills. */
  lemma GateRule(cfg: GateConfig, input: seq<Sample>, n: nat)
    requires n < |input| < TWO_32 && 1 <= cfg.speechFrames && 1 <= cfg.silenceFrames
    ensures OnsetAt(cfg, input, n) <==>
      !Run(cfg, input, n).speaking && TrailingLoud(input, n + 1) >= cfg.speechFrames && CooledDown(cfg, input, n)
    ensures Run(cfg, input, n + 1).speaking <==>
      OnsetAt(cfg, input, n) || (Run(cfg, input, n).speaking && TrailingQuiet(input, n + 1) < cfg.silenceFrames)
  {
    hide CooledDown;
    CountersCount(cfg, input, n);
    CoolingIsCooldown(cfg, input, n);
  }

  /** The loud samples just before n, as far back as the last onset. */
  function LoudSinceOnset(cfg: GateConfig, input: seq<Sample>, n: nat): (r: nat)
    requires n <= |input|
    ensures r <= n && AllLoud(input, n - r, n) && forall j :: n - r <= j < n ==> !OnsetAt(cfg, input, j)
    ensures r < n ==> !input[n - r - 1].loud || OnsetAt(cfg, input, n - r - 1)
  {
    if n == 0 || !input[n - 1].loud || OnsetAt(cfg, input, n - 1) then 0 else LoudSinceOnset(cfg, input, n - 1) + 1
  }

  lemma {:induction false} WindowStartsOver(cfg: GateConfig, input: seq<Sample>, n: nat)
    requires n <= |input| < TWO_32 && cfg.silenceFrames == 0
    ensures !Run(cfg, input, n).speaking && Run(cfg, input, n).loudFrames == LoudSinceOnset(cfg, input, n)
  {
    if n > 0 { WindowStartsOver(cfg, input, n - 1); }
  }

  /** A gate without a hangover never speaks: it declares onset each time as many loud samples as the window takes have
      come since the last one, and the cooldown is over. */
  lemma NoHangoverRule(cfg: GateConfig, input: seq<Sample>, n: nat)
    requires n < |input| < TWO_32 && 1 <= cfg.speechFrames && cfg.silenceFrames == 0
    ensures !Run(cfg, input, n).speaking
    ensures OnsetAt(cfg, input, n) <==>
      input[n].loud && LoudSinceOnset(cfg, input, n) + 1 >= cfg.speechFrames && CooledDown(cfg, input, n)
  {
    hide CooledDown;
    WindowStartsOver(cfg, input, n);
    CoolingIsCooldown(cfg, input, n);
  }
}
