// The two-thread ring as the machine has it: 64-bit indices that wrap and one
// array of slots. Step for step it does what the protocol on unbounded counters
// does, under every interleaving and every stale load.

module RingWords {
  import opened Words
  import opened SpscRings
  import opened RingProtocol

  datatype WordState<+T> = WordState(
    head: uint64, tail: uint64,
    tailCache: uint64, headCache: uint64,
    slots: seq<T>,
    prod: Producer<T>, cons: Consumer<T>,
    history: seq<Outcome<T>>)

  /** One step on words: differences modulo 2^64, slots found by masking. A load returns the word of the index seen. */
  function WordDo<T>(w: WordState<T>, step: Step<T>): WordState<T>
    requires w.slots != []
    requires step.PushCheck? || step.PushReload? || step.PushWrite? || step.PushPublish? ==> !w.prod.ProdIdle?
    requires step.PopRelease? ==> w.cons.PopReleasing?
  {
    var cap := |w.slots|;
    match step
    case PushStart(v) => w.(prod := PushLoaded(v))
    case PushCheck =>
      w.(prod := if Sub64(w.head, w.tailCache) >= cap then PushReloading(w.prod.v) else PushWriting(w.prod.v))
    case PushReload(seen) =>
      var x := w.(tailCache := Low64(seen));
      if Sub64(x.head, x.tailCache) >= cap then x.(prod := ProdIdle, history := w.history + [RefusedFull])
      else x.(prod := PushWriting(w.prod.v))
    case PushWrite => w.(slots := w.slots[w.head % cap := w.prod.v], prod := PushPublishing(w.prod.v))
    case PushPublish => w.(head := Inc64(w.head), prod := ProdIdle, history := w.history + [Pushed(w.prod.v)])
    case PopStart => w.(cons := PopLoaded)
    case PopCheck => w.(cons := if w.tail == w.headCache then PopReloading else PopReading)
    case PopReload(seen) =>
      var x := w.(headCache := Low64(seen));
      if x.tail == x.headCache then x.(cons := ConsIdle, history := w.history + [RefusedEmpty])
      else x.(cons := PopReading)
    case PopRead(_) => w.(cons := PopReleasing(w.slots[w.tail % cap]))
    case PopRelease => w.(tail := Inc64(w.tail), cons := ConsIdle, history := w.history + [Popped(w.cons.v)])
    case ProducerObserves(_) => w
    case ConsumerObserves(_) => w
  }

  /** What the slots hold after these writes. */
  function SlotsOf<T>(cap: nat, blank: T, written: seq<T>): (slots: seq<T>)
    requires 0 < cap
    ensures |slots| == cap
  {
    if written == [] then seq(cap, _ => blank)
    else SlotsOf(cap, blank, written[..|written| - 1])[(|written| - 1) % cap := written[|written| - 1]]
  }

  /** The machine's view of a protocol state. */
  function Wrapped<T>(cap: nat, s: State<T>): WordState<T>
    requires 0 < cap
  {
    WordState(Low64(s.head), Low64(s.tail), Low64(s.tailCache), Low64(s.headCache),
              SlotsOf(cap, s.blank, s.written), s.prod, s.cons, s.history)
  }

  /** A slot holds the last write of its position for one lap. */
  lemma {:induction false} SlotHolds<T>(cap: nat, blank: T, written: seq<T>, r: nat)
    requires 0 < cap && r < |written| <= r + cap
    ensures SlotsOf(cap, blank, written)[r % cap] == written[r]
  {
    var n := |written| - 1;
    if r < n {
      SlotHolds(cap, blank, written[..n], r);
      SameResidue(r, n, cap);
    }
  }

  lemma NextWord(n: nat)
    ensures Inc64(Low64(n)) == Low64(n + 1)
  {
  }

  ghost predicate Fits(cap: nat) { 0 < cap <= TWO_64 / 2 && IsPow2(cap) }

  /** Every comparison of wrapped indices comes out as on the counters. */
  lemma ComparisonsAgree<T>(cap: nat, s: State<T>)
    requires Fits(cap) && Inv(cap, s, false)
    ensures Sub64(Low64(s.head), Low64(s.tailCache)) == s.head - s.tailCache
    ensures forall seen: nat :: s.prodSeen <= seen <= s.tail ==> Sub64(Low64(s.head), Low64(seen)) == s.head - seen
    ensures Low64(s.tail) == Low64(s.headCache) <==> s.tail == s.headCache
    ensures forall seen: nat :: s.consSeen <= seen <= s.head ==> (Low64(s.tail) == Low64(seen) <==> s.tail == seen)
  {
    hide Low64, Replay;
    Low64Difference(s.head, s.tailCache);
    Low64Difference(s.headCache, s.tail);
    forall seen: nat | s.prodSeen <= seen <= s.tail ensures Sub64(Low64(s.head), Low64(seen)) == s.head - seen {
      Low64Difference(s.head, seen);
    }
    forall seen: nat | s.consSeen <= seen <= s.head ensures Low64(s.tail) == Low64(seen) <==> s.tail == seen {
      Low64Difference(seen, s.tail);
    }
  }

  lemma WriteHitsItsSlot<T>(cap: nat, s: State<T>)
    requires Fits(cap) && Inv(cap, s, false) && s.prod.PushWriting?
    ensures SlotsOf(cap, s.blank, s.written + [s.prod.v]) ==
      SlotsOf(cap, s.blank, s.written)[Low64(s.head) % cap := s.prod.v]
  {
    hide Low64, Replay, IsPow2;
    MaskFindsSlot(s.head, cap);
    assert (s.written + [s.prod.v])[..|s.written|] == s.written;
  }

  lemma ReadFindsItsSlot<T>(cap: nat, s: State<T>, at: int)
    requires Fits(cap) && Inv(cap, s, false) && s.cons.PopReading? && Readable(cap, s, at)
    ensures 0 <= at < |s.written| && SlotsOf(cap, s.blank, s.written)[Low64(s.tail) % cap] == s.written[at]
  {
    hide Low64, Replay, IsPow2, SlotsOf;
    MaskFindsSlot(s.tail, cap);
    ReadFindsItsWrite(cap, s, at, false);
    SlotHolds(cap, s.blank, s.written, s.tail);
  }

  /** One step of either thread, on words and on counters. */
  lemma StepAgrees<T>(cap: nat, s: State<T>, step: Step<T>)
    requires Fits(cap) && Inv(cap, s, false) && Enabled(cap, s, step)
    ensures Wrapped(cap, Do(cap, s, step)) == WordDo(Wrapped(cap, s), step)
  {
    hide Low64, Replay, IsPow2, SlotsOf, Readable, Inv;
    ComparisonsAgree(cap, s);
    match step
    case PushWrite => WriteHitsItsSlot(cap, s);
    case PushPublish => NextWord(s.head);
    case PopRead(at) => ReadFindsItsSlot(cap, s, at);
    case PopRelease => NextWord(s.tail);
    case _ =>
  }

  /** The machine follows the protocol through a whole run. */
  ghost predicate Follows<T>(cap: nat, w: WordState<T>, s: State<T>, steps: seq<Step<T>>, t: State<T>)
    requires 0 < cap && Runs(cap, s, steps, t, false)
    decreases |steps|
  {
    && w == Wrapped(cap, s)
    && (steps != [] ==> Follows(cap, WordDo(w, steps[0]), Do(cap, s, steps[0]), steps[1..], t))
  }

  lemma {:induction false} RunAgrees<T>(cap: nat, s: State<T>, steps: seq<Step<T>>, t: State<T>)
    requires Fits(cap) && Inv(cap, s, false) && Runs(cap, s, steps, t, false)
    ensures Follows(cap, Wrapped(cap, s), s, steps, t)
    decreases |steps|
  {
    hide Inv, Do, WordDo, Wrapped, Enabled;
    if steps != [] {
      StepAgrees(cap, s, steps[0]);
      InvStep(cap, s, steps[0], false);
      RunAgrees(cap, Do(cap, s, steps[0]), steps[1..], t);
    }
  }

  /** From an empty ring, through every run with stale loads, the wrapping machine is in the state the counters
      say, so it refuses, pushes and pops as they do, however often its indices wrap. */
  lemma WrappingNeverShows<T>(cap: nat, blank: T, steps: seq<Step<T>>, t: State<T>)
    requires Fits(cap) && Runs(cap, Initial(blank), steps, t, false)
    ensures Follows(cap, WordState(0, 0, 0, 0, seq(cap, _ => blank), ProdIdle, ConsIdle, []), Initial(blank), steps, t)
  {
    RunAgrees(cap, Initial(blank), steps, t);
  }
}
