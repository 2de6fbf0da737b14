// The ring as two threads: every load, slot access and store is a step of its
// own, and steps of the two sides interleave at will. An acquire load of the
// other side's index may return any value not older than one this side has
// already seen, and a slot read may return any write not known to be overwritten.

module RingProtocol {
  import opened Words

  datatype Producer<+T> = ProdIdle | PushLoaded(v: T) | PushReloading(v: T) | PushWriting(v: T) | PushPublishing(v: T)

  datatype Consumer<+T> = ConsIdle | PopLoaded | PopReloading | PopReading | PopReleasing(v: T)

  /** What a finished call reported. */
  datatype Outcome<+T> = Pushed(v: T) | RefusedFull | Popped(v: T) | RefusedEmpty

  datatype State<+T> = State(
    head: nat, tail: nat,             // the two shared indices, unbounded
    tailCache: nat, headCache: nat,   // each side's copy of the other's
    prodSeen: nat, consSeen: nat,     // the newest tail, head each side has acquired
    written: seq<T>,                  // every slot write, by position
    blank: T,                         // what a slot holds before any write
    prod: Producer<T>, cons: Consumer<T>,
    history: seq<Outcome<T>>)

  datatype Step<+T> =
    | PushStart(v: T) | PushCheck | PushReload(seen: nat) | PushWrite | PushPublish
    | PopStart | PopCheck | PopReload(seen: nat) | PopRead(at: int) | PopRelease
    | ProducerObserves(seen: nat) | ConsumerObserves(seen: nat)

  function Initial<T>(blank: T): State<T> {
    State(0, 0, 0, 0, 0, 0, [], blank, ProdIdle, ConsIdle, [])
  }

  // ------------------------------------------------------ the steps

  /** A write that a read of slot tail % cap could return: none on that slot is known to come after it. */
  ghost predicate Readable<T>(cap: nat, s: State<T>, at: int)
    requires 0 < cap
  {
    && 0 <= at + cap && at < |s.written|
    && at % cap == s.tail % cap
    && forall q: nat :: at < q < s.consSeen ==> q % cap != at % cap
  }

  ghost predicate Enabled<T>(cap: nat, s: State<T>, step: Step<T>)
    requires 0 < cap
  {
    match step
    case PushStart(_) => s.prod.ProdIdle?
    case PushCheck => s.prod.PushLoaded?
    case PushReload(seen) => s.prod.PushReloading? && s.prodSeen <= seen <= s.tail
    case PushWrite => s.prod.PushWriting?
    case PushPublish => s.prod.PushPublishing?
    case PopStart => s.cons.ConsIdle?
    case PopCheck => s.cons.PopLoaded?
    case PopReload(seen) => s.cons.PopReloading? && s.consSeen <= seen <= s.head
    case PopRead(at) => s.cons.PopReading? && Readable(cap, s, at)
    case PopRelease => s.cons.PopReleasing?
    case ProducerObserves(seen) => s.prod.ProdIdle? && s.prodSeen <= seen <= s.tail
    case ConsumerObserves(seen) => s.cons.ConsIdle? && s.consSeen <= seen <= s.head
  }

  ghost function Do<T>(cap: nat, s: State<T>, step: Step<T>): State<T>
    requires 0 < cap && Enabled(cap, s, step)
  {
    match step
    case PushStart(v) => s.(prod := PushLoaded(v))
    case PushCheck =>
      s.(prod := if s.head - s.tailCache >= cap then PushReloading(s.prod.v) else PushWriting(s.prod.v))
    case PushReload(seen) =>
      var t := s.(tailCache := seen, prodSeen := seen);
      if s.head - seen >= cap then t.(prod := ProdIdle, history := s.history + [RefusedFull])
      else t.(prod := PushWriting(s.prod.v))
    case PushWrite => s.(written := s.written + [s.prod.v], prod := PushPublishing(s.prod.v))
    case PushPublish =>
      s.(head := s.head + 1, prod := ProdIdle, history := s.history + [Pushed(s.prod.v)])
    case PopStart => s.(cons := PopLoaded)
    case PopCheck => s.(cons := if s.tail == s.headCache then PopReloading else PopReading)
    case PopReload(seen) =>
      var t := s.(headCache := seen, consSeen := seen);
      if s.tail == seen then t.(cons := ConsIdle, history := s.history + [RefusedEmpty])
      else t.(cons := PopReading)
    case PopRead(at) => s.(cons := PopReleasing(if at < 0 then s.blank else s.written[at]))
    case PopRelease =>
      s.(tail := s.tail + 1, cons := ConsIdle, history := s.history + [Popped(s.cons.v)])
    case ProducerObserves(seen) => s.(prodSeen := seen)
    case ConsumerObserves(seen) => s.(consSeen := seen)
  }

  /** The load returned the index as it stands: what atomic interleaving would give. */
  predicate UpToDate<T>(s: State<T>, step: Step<T>) {
    (step.PushReload? ==> step.seen == s.tail) && (step.PopReload? ==> step.seen == s.head)
  }

  /** s runs through the steps and ends in t; `atomic` rules out stale index loads. */
  ghost predicate Runs<T>(cap: nat, s: State<T>, steps: seq<Step<T>>, t: State<T>, atomic: bool)
    requires 0 < cap
    decreases |steps|
  {
    if steps == [] then s == t
    else
      && Enabled(cap, s, steps[0])
      && (atomic ==> UpToDate(s, steps[0]))
      && Runs(cap, Do(cap, s, steps[0]), steps[1..], t, atomic)
  }

  // ------------------------------------------------------ what can go wrong

  /** A slot write races when a read of that slot has not been released to the producer. */
  ghost predicate WriteIsOrdered<T>(cap: nat, s: State<T>)
    requires 0 < cap
  {
    s.prod.PushWriting? ==> forall r: nat :: r < s.head && r % cap == s.head % cap ==> r < s.prodSeen
  }

  /** A slot read races when the write it is meant to see has not been released to the consumer. */
  predicate ReadIsOrdered<T>(s: State<T>) {
    s.cons.PopReading? ==> s.tail < s.consSeen
  }

  // ------------------------------------------------------ the queue it must look like

  /** A bounded queue's verdict on one outcome: what it holds afterwards, or nothing if it could not have happened.
      Refusals are held to the queue's state only when `strict`. */
  function Admit<T(==)>(cap: nat, q: seq<T>, o: Outcome<T>, strict: bool): Option<seq<T>> {
    match o
    case Pushed(v) => if |q| < cap then Some(q + [v]) else None
    case RefusedFull => if strict ==> |q| == cap then Some(q) else None
    case Popped(v) => if q != [] && q[0] == v then Some(q[1..]) else None
    case RefusedEmpty => if strict ==> q == [] then Some(q) else None
  }

  function Replay<T(==)>(cap: nat, history: seq<Outcome<T>>, strict: bool): Option<seq<T>> {
    if history == [] then Some([])
    else
      var q := Replay(cap, history[..|history| - 1], strict);
      if q.None? then None else Admit(cap, q.value, history[|history| - 1], strict)
  }

  lemma ReplayOne<T>(cap: nat, history: seq<Outcome<T>>, o: Outcome<T>, strict: bool)
    requires Replay(cap, history, strict).Some?
    ensures Replay(cap, history + [o], strict) == Admit(cap, Replay(cap, history, strict).value, o, strict)
  {
    assert (history + [o])[..|history|] == history;
  }

  function Pushes<T>(history: seq<Outcome<T>>): seq<T> {
    if history == [] then []
    else
      var o := history[|history| - 1];
      Pushes(history[..|history| - 1]) + if o.Pushed? then [o.v] else []
  }

  function Pops<T>(history: seq<Outcome<T>>): seq<T> {
    if history == [] then []
    else
      var o := history[|history| - 1];
      Pops(history[..|history| - 1]) + if o.Popped? then [o.v] else []
  }

  /** A history a queue allows loses nothing, invents nothing and reorders nothing. */
  lemma {:induction false} ReplayConserves<T>(cap: nat, history: seq<Outcome<T>>, strict: bool)
    requires Replay(cap, history, strict).Some?
    ensures Pushes(history) == Pops(history) + Replay(cap, history, strict).value
  {
    if history != [] {
      ReplayConserves(cap, history[..|history| - 1], strict);
    }
  }

  // ------------------------------------------------------ the invariant

  ghost predicate Indices<T>(cap: nat, s: State<T>) {
    && s.tailCache <= s.prodSeen <= s.tail <= s.headCache <= s.consSeen <= s.head <= s.tailCache + cap
    && |s.written| == s.head + (if s.prod.PushPublishing? then 1 else 0)
  }

  ghost predicate Inv<T>(cap: nat, s: State<T>, strict: bool) {
    && Indices(cap, s)
    && (s.prod.PushWriting? || s.prod.PushPublishing? ==> s.head < s.tailCache + cap)
    && (s.prod.PushPublishing? ==> s.written[s.head] == s.prod.v)
    && (s.cons.PopReading? || s.cons.PopReleasing? ==> s.tail < s.headCache)
    && (s.cons.PopReleasing? ==> s.cons.v == s.written[s.tail])
    && (s.cons.PopReloading? ==> s.tail == s.headCache)
    && Replay(cap, s.history, strict) == Some(s.written[s.tail..s.head])
  }

  /** Whatever stale value the slot read was free to return, it returns the write it is meant to. */
  lemma ReadFindsItsWrite<T>(cap: nat, s: State<T>, at: int, strict: bool)
    requires 0 < cap && Inv(cap, s, strict) && s.cons.PopReading? && Readable(cap, s, at)
    ensures at == s.tail
  {
    SameResidue(at, s.tail, cap);
    SameResidue(s.tail, at, cap);
  }

  lemma WritesAreOrdered<T>(cap: nat, s: State<T>, strict: bool)
    requires 0 < cap && Inv(cap, s, strict)
    ensures WriteIsOrdered(cap, s) && ReadIsOrdered(s)
  {
    if s.prod.PushWriting? {
      forall r: nat | r < s.head && r % cap == s.head % cap ensures r < s.prodSeen {
        SameResidue(r, s.head, cap);
      }
    }
  }

  lemma PublishKeepsInv<T>(cap: nat, s: State<T>, strict: bool)
    requires 0 < cap && Inv(cap, s, strict) && s.prod.PushPublishing?
    ensures Inv(cap, Do(cap, s, PushPublish), strict)
  {
    hide Replay;
    var t := Do(cap, s, PushPublish);
    ReplayOne(cap, s.history, Pushed(s.prod.v), strict);
    assert t.written[t.tail..t.head] == s.written[s.tail..s.head] + [s.prod.v];
  }

  lemma WriteKeepsInv<T>(cap: nat, s: State<T>, strict: bool)
    requires 0 < cap && Inv(cap, s, strict) && s.prod.PushWriting?
    ensures Inv(cap, Do(cap, s, PushWrite), strict)
  {
    hide Replay;
    var t := Do(cap, s, PushWrite);
    assert t.written[t.tail..t.head] == s.written[s.tail..s.head];
  }

  lemma PushReloadKeepsInv<T>(cap: nat, s: State<T>, seen: nat, strict: bool)
    requires 0 < cap && Inv(cap, s, strict) && s.prod.PushReloading? && s.prodSeen <= seen <= s.tail
    requires strict ==> seen == s.tail
    ensures Inv(cap, Do(cap, s, PushReload(seen)), strict)
  {
    hide Replay;
    ReplayOne(cap, s.history, RefusedFull, strict);
  }

  lemma InvPushStep<T>(cap: nat, s: State<T>, step: Step<T>, strict: bool)
    requires 0 < cap && Inv(cap, s, strict) && Enabled(cap, s, step)
    requires strict ==> UpToDate(s, step)
    requires step.PushStart? || step.PushCheck? || step.PushReload? || step.PushWrite? || step.PushPublish?
    ensures Inv(cap, Do(cap, s, step), strict)
  {
    hide Replay;
    match step
    case PushPublish => PublishKeepsInv(cap, s, strict);
    case PushReload(seen) => PushReloadKeepsInv(cap, s, seen, strict);
    case PushWrite => WriteKeepsInv(cap, s, strict);
    case _ =>
  }

  lemma ReadKeepsInv<T>(cap: nat, s: State<T>, at: int, strict: bool)
    requires 0 < cap && Inv(cap, s, strict) && s.cons.PopReading? && Readable(cap, s, at)
    ensures Inv(cap, Do(cap, s, PopRead(at)), strict)
  {
    ReadFindsItsWrite(cap, s, at, strict);
    hide Replay, Readable;
  }

  lemma ReleaseKeepsInv<T>(cap: nat, s: State<T>, strict: bool)
    requires 0 < cap && Inv(cap, s, strict) && s.cons.PopReleasing?
    ensures Inv(cap, Do(cap, s, PopRelease), strict)
  {
    hide Replay;
    var t := Do(cap, s, PopRelease);
    ReplayOne(cap, s.history, Popped(s.cons.v), strict);
    assert t.written[t.tail..t.head] == s.written[s.tail..s.head][1..];
    assert s.written[s.tail..s.head][0] == s.cons.v;
  }

  lemma PopReloadKeepsInv<T>(cap: nat, s: State<T>, seen: nat, strict: bool)
    requires 0 < cap && Inv(cap, s, strict) && s.cons.PopReloading? && s.consSeen <= seen <= s.head
    requires strict ==> seen == s.head
    ensures Inv(cap, Do(cap, s, PopReload(seen)), strict)
  {
    hide Replay;
    ReplayOne(cap, s.history, RefusedEmpty, strict);
  }

  lemma InvPopStep<T>(cap: nat, s: State<T>, step: Step<T>, strict: bool)
    requires 0 < cap && Inv(cap, s, strict) && Enabled(cap, s, step)
    requires strict ==> UpToDate(s, step)
    requires step.PopStart? || step.PopCheck? || step.PopReload? || step.PopRead? || step.PopRelease?
    ensures Inv(cap, Do(cap, s, step), strict)
  {
    hide Replay, Readable;
    match step
    case PopRead(at) => ReadKeepsInv(cap, s, at, strict);
    case PopReload(seen) => PopReloadKeepsInv(cap, s, seen, strict);
    case PopRelease => ReleaseKeepsInv(cap, s, strict);
    case _ =>
  }

  lemma InvStep<T>(cap: nat, s: State<T>, step: Step<T>, strict: bool)
    requires 0 < cap && Inv(cap, s, strict) && Enabled(cap, s, step)
    requires strict ==> UpToDate(s, step)
    ensures Inv(cap, Do(cap, s, step), strict)
  {
    match step
    case PushStart(_) => InvPushStep(cap, s, step, strict);
    case PushCheck => InvPushStep(cap, s, step, strict);
    case PushReload(_) => InvPushStep(cap, s, step, strict);
    case PushWrite => InvPushStep(cap, s, step, strict);
    case PushPublish => InvPushStep(cap, s, step, strict);
    case ProducerObserves(_) =>
    case ConsumerObserves(_) =>
    case _ => InvPopStep(cap, s, step, strict);
  }

  lemma {:induction false} InvRun<T>(cap: nat, s: State<T>, steps: seq<Step<T>>, t: State<T>, strict: bool)
    requires 0 < cap && Inv(cap, s, strict) && Runs(cap, s, steps, t, strict)
    ensures Inv(cap, t, strict)
    decreases |steps|
  {
    if steps != [] {
      InvStep(cap, s, steps[0], strict);
      InvRun(cap, Do(cap, s, steps[0]), steps[1..], t, strict);
    }
  }

  // ------------------------------------------------------ the results

  /** Stale loads and all: no reachable state has either side about to touch a slot the other has not released. */
  lemma NoRunRaces<T>(cap: nat, blank: T, steps: seq<Step<T>>, t: State<T>)
    requires 0 < cap && Runs(cap, Initial(blank), steps, t, false)
    ensures WriteIsOrdered(cap, t) && ReadIsOrdered(t)
  {
    InvRun(cap, Initial(blank), steps, t, false);
    WritesAreOrdered(cap, t, false);
  }

  /** Stale loads and all: the calls that succeed are those of a FIFO of capacity cap, in the order of their
      stores, so every popped value is the one pushed at its position. */
  lemma NoRunReorders<T>(cap: nat, blank: T, steps: seq<Step<T>>, t: State<T>)
    requires 0 < cap && Runs(cap, Initial(blank), steps, t, false)
    ensures t.tail <= t.head <= |t.written| && t.head <= t.tail + cap
    ensures Replay(cap, t.history, false) == Some(t.written[t.tail..t.head])
    ensures Pushes(t.history) == Pops(t.history) + t.written[t.tail..t.head]
    ensures forall at :: t.cons.PopReading? && Readable(cap, t, at) ==> at == t.tail
  {
    InvRun(cap, Initial(blank), steps, t, false);
    ReplayConserves(cap, t.history, false);
    forall at | t.cons.PopReading? && Readable(cap, t, at) ensures at == t.tail {
      ReadFindsItsWrite(cap, t, at, false);
    }
  }

  /** With atomic loads the refusals are a FIFO's too: full means cap items, empty means none. */
  lemma AtomicRunsLinearize<T>(cap: nat, blank: T, steps: seq<Step<T>>, t: State<T>)
    requires 0 < cap && Runs(cap, Initial(blank), steps, t, true)
    ensures t.tail <= t.head <= |t.written|
    ensures Replay(cap, t.history, true) == Some(t.written[t.tail..t.head])
  {
    InvRun(cap, Initial(blank), steps, t, true);
  }
}
