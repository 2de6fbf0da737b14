// The hangover knob at the level of chunks: with nothing else closing them, one
// chunk comes out per endpoint, so a longer hold never yields more.

module HangoverChunks {
  import opened Words
  import opened Audio
  import opened Gate
  import opened HangoverKnob
  import opened Chunker
  import opened Slices

  /** Only the gate closes chunks: no flush, and no chunk long enough to be cut. */
  ghost predicate OnlyHangovers(cfg: ChunkerConfig, input: seq<Tick>, n: nat)
    requires n <= |input|
  {
    && (forall i :: 0 <= i < n ==> input[i].flushNs == None)
    && (forall e :: e in Trace(cfg, input, n).out ==> e.closed.event.reason != MaxLength)
  }

  /** One frame under those conditions: a chunk closes exactly at an endpoint. */
  lemma FrameClosesAtEndpoint(cfg: ChunkerConfig, input: seq<Tick>, n: nat, p: Progress)
    requires n < |input| && Plain(Normalised(cfg.gate)) && InStep(cfg, input, n, p.state)
    requires p.state.active == p.state.gate.speaking
    requires var c := FrameStep(cfg, p.state, input[n].frame, input[n].nowNs).1;
      c.Some? ==> c.value.event.reason != MaxLength
    ensures var (a, c) := FrameStep(cfg, p.state, input[n].frame, input[n].nowNs);
      && a.active == a.gate.speaking
      && (c.Some? <==> EndpointAt(Normalised(cfg.gate), Heard(cfg, input), n))
      && (c.Some? ==> c.value.event.reason == Hangover)
  {
    hide Placed, PlacedAt;
    PlacedBasics(cfg, input, n, p.state);
    assert Placed(cfg, p.state, input[n].frame, input[n].nowNs) == PlacedAt(cfg, input, n, p.state) by {
      PlacedAtIs(cfg, input, n, p.state);
    }
    OnsetRule(Normalised(cfg.gate), Heard(cfg, input), n);
  }

  lemma PlacedAtIs(cfg: ChunkerConfig, input: seq<Tick>, n: nat, a: AssemblerState)
    requires n < |input|
    ensures PlacedAt(cfg, input, n, a) == Placed(cfg, a, input[n].frame, input[n].nowNs)
  {
  }

  lemma {:induction false} OneChunkPerEndpoint(cfg: ChunkerConfig, input: seq<Tick>, n: nat)
    requires n <= |input| < TWO_32 && Plain(Normalised(cfg.gate)) && OnlyHangovers(cfg, input, n)
    ensures var p := Trace(cfg, input, n);
      && p.state.active == p.state.gate.speaking
      && |p.out| == Endpoints(Normalised(cfg.gate), Heard(cfg, input), n)
      && forall e :: e in p.out ==> e.closed.event.reason == Hangover
  {
    hide FrameStep;
    if n > 0 {
      var p, q := Trace(cfg, input, n - 1), Trace(cfg, input, n);
      var c := FrameStep(cfg, p.state, input[n - 1].frame, input[n - 1].nowNs).1;
      assert q.out == Emit(p.out, c, n);
      assert c.Some? ==> Emitted(c.value, n) in q.out;
      assert forall e :: e in p.out ==> e in q.out;
      OneChunkPerEndpoint(cfg, input, n - 1);
      assert InStep(cfg, input, n - 1, p.state) by { EveryRunTracked(cfg, input, n - 1); }
      FrameClosesAtEndpoint(cfg, input, n - 1, p);
    }
  }

  lemma SameHearing(short: ChunkerConfig, long: ChunkerConfig, input: seq<Tick>)
    requires long == short.(gate := long.gate) && LongerHold(Normalised(short.gate), Normalised(long.gate))
    ensures Heard(short, input) == Heard(long, input)
  {
    var g, h := Normalised(short.gate), Normalised(long.gate);
    assert g.rmsThreshold == h.rmsThreshold && g.peakThreshold == h.peakThreshold;
    assert short.energyOf == long.energyOf;
    forall i | 0 <= i < |input| ensures Heard(short, input)[i] == Heard(long, input)[i] {
      assert Loud(g, short.energyOf(input[i].frame)) == Loud(h, long.energyOf(input[i].frame));
    }
  }

  /** Over the same audio, with only hangovers closing chunks, a longer hold never yields more chunks. */
  lemma LongerHoldFewerChunks(short: ChunkerConfig, long: ChunkerConfig, input: seq<Tick>)
    requires |input| < TWO_32
    requires long == short.(gate := long.gate) && LongerHold(Normalised(short.gate), Normalised(long.gate))
    requires OnlyHangovers(short, input, |input|) && OnlyHangovers(long, input, |input|)
    ensures |Trace(long, input, |input|).out| <= |Trace(short, input, |input|).out|
  {
    hide Trace, Endpoints, OnlyHangovers, Heard;
    OneChunkPerEndpoint(short, input, |input|);
    OneChunkPerEndpoint(long, input, |input|);
    SameHearing(short, long, input);
    LongerHoldCutsLess(Normalised(short.gate), Normalised(long.gate), Heard(short, input), |input|);
  }
}
