// Every call on the ring answers: a push that has ended was either taken, with
// the value it was given, or refused as full, and a pop likewise.

module RingCalls {
  import opened Words
  import opened RingProtocol

  /** The values pushes were started with. */
  function PushStarts<T>(steps: seq<Step<T>>): seq<T> {
    if steps == [] then []
    else (if steps[0].PushStart? then [steps[0].v] else []) + PushStarts(steps[1..])
  }

  function PopStarts<T>(steps: seq<Step<T>>): nat {
    if steps == [] then 0 else (if steps[0].PopStart? then 1 else 0) + PopStarts(steps[1..])
  }

  /** What the pushes that ended reported. */
  function PushAnswers<T>(history: seq<Outcome<T>>): (r: seq<Outcome<T>>)
    ensures forall i :: 0 <= i < |r| ==> r[i].Pushed? || r[i].RefusedFull?
  {
    if history == [] then []
    else
      var o := history[|history| - 1];
      PushAnswers(history[..|history| - 1]) + if o.Pushed? || o.RefusedFull? then [o] else []
  }

  function PopAnswers<T>(history: seq<Outcome<T>>): seq<Outcome<T>> {
    if history == [] then []
    else
      var o := history[|history| - 1];
      PopAnswers(history[..|history| - 1]) + if o.Popped? || o.RefusedEmpty? then [o] else []
  }

  function Fulls<T>(history: seq<Outcome<T>>): nat {
    if history == [] then 0
    else Fulls(history[..|history| - 1]) + if history[|history| - 1].RefusedFull? then 1 else 0
  }

  function Empties<T>(history: seq<Outcome<T>>): nat {
    if history == [] then 0
    else Empties(history[..|history| - 1]) + if history[|history| - 1].RefusedEmpty? then 1 else 0
  }

  lemma AnswersOneMore<T>(history: seq<Outcome<T>>, o: Outcome<T>)
    ensures PushAnswers(history + [o]) == PushAnswers(history) + if o.Pushed? || o.RefusedFull? then [o] else []
    ensures PopAnswers(history + [o]) == PopAnswers(history) + if o.Popped? || o.RefusedEmpty? then [o] else []
  {
    assert (history + [o])[..|history|] == history;
  }

  /** Each push started with starts[i] reported for that value, and the one under way, if any, is the last. */
  ghost predicate PushesAnswered<T>(starts: seq<T>, s: State<T>) {
    var r := PushAnswers(s.history);
    && |starts| == |r| + (if s.prod.ProdIdle? then 0 else 1)
    && (forall i :: 0 <= i < |r| && r[i].Pushed? ==> r[i].v == starts[i])
    && (!s.prod.ProdIdle? ==> s.prod.v == starts[|starts| - 1])
  }

  ghost predicate PopsAnswered<T>(starts: nat, s: State<T>) {
    starts == |PopAnswers(s.history)| + if s.cons.ConsIdle? then 0 else 1
  }

  /** A step of a push starts it, takes it on, or ends it with its answer; a step of a pop leaves it alone. */
  lemma PushEffect<T>(cap: nat, s: State<T>, step: Step<T>)
    requires 0 < cap && Enabled(cap, s, step)
    ensures var t := Do(cap, s, step);
      if step.PushStart? then
        s.prod.ProdIdle? && t.prod == PushLoaded(step.v) && t.history == s.history
      else if step.PushCheck? || step.PushReload? || step.PushWrite? || step.PushPublish? then
        && !s.prod.ProdIdle?
        && (!t.prod.ProdIdle? ==> t.prod.v == s.prod.v && t.history == s.history)
        && (t.prod.ProdIdle? ==>
             t.history == s.history + [Pushed(s.prod.v)] || t.history == s.history + [RefusedFull])
      else
        && t.prod == s.prod
        && (t.history == s.history || t.history == s.history + [RefusedEmpty]
            || (s.cons.PopReleasing? && t.history == s.history + [Popped(s.cons.v)]))
  {
    hide Readable;
  }

  lemma PushStepAnswers<T>(cap: nat, s: State<T>, step: Step<T>, starts: seq<T>)
    requires 0 < cap && Enabled(cap, s, step) && PushesAnswered(starts, s)
    ensures PushesAnswered(starts + if step.PushStart? then [step.v] else [], Do(cap, s, step))
  {
    hide PushAnswers, Readable, Do, Enabled;
    PushEffect(cap, s, step);
    assert starts + [] == starts && PushAnswers(s.history) + [] == PushAnswers(s.history);
    AnswersOneMore(s.history, RefusedFull);
    AnswersOneMore(s.history, RefusedEmpty);
    if !s.prod.ProdIdle? { AnswersOneMore(s.history, Pushed(s.prod.v)); }
    if s.cons.PopReleasing? { AnswersOneMore(s.history, Popped(s.cons.v)); }
  }

  /** And the other way round. */
  lemma PopEffect<T>(cap: nat, s: State<T>, step: Step<T>)
    requires 0 < cap && Enabled(cap, s, step)
    ensures var t := Do(cap, s, step);
      if step.PopStart? then
        s.cons.ConsIdle? && !t.cons.ConsIdle? && t.history == s.history
      else if step.PopCheck? || step.PopReload? || step.PopRead? || step.PopRelease? then
        && !s.cons.ConsIdle?
        && (!t.cons.ConsIdle? ==> t.history == s.history)
        && (t.cons.ConsIdle? ==>
             || t.history == s.history + [RefusedEmpty]
             || (s.cons.PopReleasing? && t.history == s.history + [Popped(s.cons.v)]))
      else
        && t.cons == s.cons
        && (t.history == s.history || t.history == s.history + [RefusedFull]
            || (!s.prod.ProdIdle? && t.history == s.history + [Pushed(s.prod.v)]))
  {
    hide Readable;
  }

  lemma PopStepAnswers<T>(cap: nat, s: State<T>, step: Step<T>, starts: nat)
    requires 0 < cap && Enabled(cap, s, step) && PopsAnswered(starts, s)
    ensures PopsAnswered(starts + if step.PopStart? then 1 else 0, Do(cap, s, step))
  {
    hide PopAnswers, Readable, Do, Enabled;
    PopEffect(cap, s, step);
    assert PopAnswers(s.history) + [] == PopAnswers(s.history);
    AnswersOneMore(s.history, RefusedFull);
    AnswersOneMore(s.history, RefusedEmpty);
    if !s.prod.ProdIdle? { AnswersOneMore(s.history, Pushed(s.prod.v)); }
    if s.cons.PopReleasing? { AnswersOneMore(s.history, Popped(s.cons.v)); }
  }

  lemma {:induction false} RunAnswers<T>(cap: nat, s: State<T>, steps: seq<Step<T>>, t: State<T>, atomic: bool,
                                         pushes: seq<T>, pops: nat)
    requires 0 < cap && Runs(cap, s, steps, t, atomic) && PushesAnswered(pushes, s) && PopsAnswered(pops, s)
    ensures PushesAnswered(pushes + PushStarts(steps), t) && PopsAnswered(pops + PopStarts(steps), t)
    decreases |steps|
  {
    hide PushesAnswered, PopsAnswered, Do, Enabled;
    if steps == [] {
      assert pushes + PushStarts(steps) == pushes && pops + PopStarts(steps) == pops;
    } else {
      var now, one := if steps[0].PushStart? then [steps[0].v] else [], if steps[0].PopStart? then 1 else 0;
      PushStepAnswers(cap, s, steps[0], pushes);
      PopStepAnswers(cap, s, steps[0], pops);
      RunAnswers(cap, Do(cap, s, steps[0]), steps[1..], t, atomic, pushes + now, pops + one);
      assert pushes + now + PushStarts(steps[1..]) == pushes + PushStarts(steps);
      assert pops + one + PopStarts(steps[1..]) == pops + PopStarts(steps);
    }
  }

  lemma NothingAsked<T>(blank: T)
    ensures PushesAnswered([], Initial(blank)) && PopsAnswered(0, Initial(blank))
  {
  }

  lemma {:induction false} AnswersAreCounted<T>(history: seq<Outcome<T>>)
    ensures |PushAnswers(history)| == |Pushes(history)| + Fulls(history)
    ensures |PopAnswers(history)| == |Pops(history)| + Empties(history)
  {
    if history != [] { AnswersAreCounted(history[..|history| - 1]); }
  }

  /** In every run, stale loads and all: every push started has been taken or refused as full, but for the one under
      way; one that was taken was taken with the value it was started with; and every pop started has yielded an item or
      found the ring empty, but for the one under way. */
  lemma EveryCallAnswers<T>(cap: nat, blank: T, steps: seq<Step<T>>, t: State<T>)
    requires 0 < cap && Runs(cap, Initial(blank), steps, t, false)
    ensures PushesAnswered(PushStarts(steps), t)
    ensures |PushStarts(steps)| == |Pushes(t.history)| + Fulls(t.history) + if t.prod.ProdIdle? then 0 else 1
    ensures PopStarts(steps) == |Pops(t.history)| + Empties(t.history) + if t.cons.ConsIdle? then 0 else 1
  {
    hide Runs, PushStarts, PopStarts, PushAnswers, PopAnswers;
    NothingAsked(blank);
    RunAnswers(cap, Initial(blank), steps, t, false, [], 0);
    assert [] + PushStarts(steps) == PushStarts(steps);
    AnswersAreCounted(t.history);
  }

  /** What the ring held when the i-th call to end took effect. */
  lemma {:induction false} ReplayedSoFar<T>(cap: nat, history: seq<Outcome<T>>, i: nat, strict: bool)
    requires i < |history| && Replay(cap, history, strict).Some?
    ensures Replay(cap, history[..i], strict).Some?
    ensures Admit(cap, Replay(cap, history[..i], strict).value, history[i], strict).Some?
    decreases |history|
  {
    var n := |history| - 1;
    if i < n {
      ReplayedSoFar(cap, history[..n], i, strict);
      assert history[..n][..i] == history[..i];
    }
  }

  /** With atomic loads a call fails only as it must: a push is refused exactly when the ring holds cap items, a pop
      exactly when it holds none, and a pop that succeeds yields the oldest. */
  lemma CallsFailOnlyAsTheyMust<T>(cap: nat, blank: T, steps: seq<Step<T>>, t: State<T>, i: nat) returns (held: seq<T>)
    requires 0 < cap && Runs(cap, Initial(blank), steps, t, true) && i < |t.history|
    ensures Replay(cap, t.history[..i], true) == Some(held) && |held| <= cap
    ensures var o := t.history[i];
      && (o.Pushed? ==> |held| < cap) && (o.RefusedFull? ==> |held| == cap)
      && (o.Popped? ==> held != [] && o.v == held[0]) && (o.RefusedEmpty? ==> held == [])
  {
    AtomicRunsLinearize(cap, blank, steps, t);
    ReplayedSoFar(cap, t.history, i, true);
    held := Replay(cap, t.history[..i], true).value;
    ReplayFits(cap, t.history[..i], true);
  }

  lemma {:induction false} ReplayFits<T>(cap: nat, history: seq<Outcome<T>>, strict: bool)
    requires Replay(cap, history, strict).Some?
    ensures |Replay(cap, history, strict).value| <= cap
  {
    if history != [] { ReplayFits(cap, history[..|history| - 1], strict); }
  }

  // ------------------------------------------------------ the values that got through

  /** The started values whose push was taken. */
  function Taken<T>(starts: seq<T>, answers: seq<Outcome<T>>): seq<T>
    requires |answers| <= |starts|
  {
    if answers == [] then []
    else
      var n := |answers| - 1;
      Taken(starts, answers[..n]) + if answers[n].Pushed? then [starts[n]] else []
  }

  lemma {:induction false} PushesAreTaken<T>(starts: seq<T>, history: seq<Outcome<T>>)
    requires |PushAnswers(history)| <= |starts|
    requires forall i :: 0 <= i < |PushAnswers(history)| && PushAnswers(history)[i].Pushed? ==>
      PushAnswers(history)[i].v == starts[i]
    ensures Pushes(history) == Taken(starts, PushAnswers(history))
  {
    if history != [] {
      var n, o := |history| - 1, history[|history| - 1];
      var before, r := PushAnswers(history[..n]), PushAnswers(history);
      assert history == history[..n] + [o];
      AnswersOneMore(history[..n], o);
      assert forall i :: 0 <= i < |before| ==> before[i] == r[i];
      PushesAreTaken(starts, history[..n]);
      if o.Pushed? || o.RefusedFull? { assert r[..|r| - 1] == before; } else { assert r == before; }
    }
  }

  // ------------------------------------------------------ nobody waits

  /** How many steps of its own a push still has to take at most. */
  function PushStepsLeft<T>(p: Producer<T>): nat {
    match p
    case ProdIdle => 0
    case PushPublishing(_) => 1
    case PushWriting(_) => 2
    case PushReloading(_) => 3
    case PushLoaded(_) => 4
  }

  function PopStepsLeft<T>(c: Consumer<T>): nat {
    match c
    case ConsIdle => 0
    case PopReleasing(_) => 1
    case PopReading => 2
    case PopReloading => 3
    case PopLoaded => 4
  }

  predicate PushStep<T>(step: Step<T>) {
    step.PushCheck? || step.PushReload? || step.PushWrite? || step.PushPublish?
  }

  predicate PopStep<T>(step: Step<T>) {
    step.PopCheck? || step.PopReload? || step.PopRead? || step.PopRelease?
  }

  lemma PushStepsAdvance<T>(cap: nat, s: State<T>, step: Step<T>)
    requires 0 < cap && Enabled(cap, s, step)
    ensures PushStep(step) ==> PushStepsLeft(Do(cap, s, step).prod) < PushStepsLeft(s.prod) <= 4
    ensures PopStep(step) ==> Do(cap, s, step).prod == s.prod
  {
    hide Readable;
  }

  /** A push under way can always take its next step, and each brings it nearer its end; so it ends within four steps of
      its own thread, whatever the other does. */
  lemma PushIsWaitFree<T>(cap: nat, blank: T, steps: seq<Step<T>>, s: State<T>) returns (next: Step<T>)
    requires 0 < cap && Runs(cap, Initial(blank), steps, s, false) && !s.prod.ProdIdle?
    ensures PushStep(next) && Enabled(cap, s, next)
    ensures forall step :: PushStep(step) && Enabled(cap, s, step) ==>
      PushStepsLeft(Do(cap, s, step).prod) < PushStepsLeft(s.prod) <= 4
    ensures forall step :: PopStep(step) && Enabled(cap, s, step) ==> Do(cap, s, step).prod == s.prod
  {
    InvRun(cap, Initial(blank), steps, s, false);
    hide Runs, Replay, Readable, PushStepsLeft;
    forall step | Enabled(cap, s, step)
      ensures PushStep(step) ==> PushStepsLeft(Do(cap, s, step).prod) < PushStepsLeft(s.prod) <= 4
      ensures PopStep(step) ==> Do(cap, s, step).prod == s.prod
    {
      PushStepsAdvance(cap, s, step);
    }
    next := match s.prod
      case PushLoaded(_) => PushCheck
      case PushReloading(_) => PushReload(s.tail)
      case PushWriting(_) => PushWrite
      case PushPublishing(_) => PushPublish;
  }

  lemma PopStepsAdvance<T>(cap: nat, s: State<T>, step: Step<T>)
    requires 0 < cap && Enabled(cap, s, step)
    ensures PopStep(step) ==> PopStepsLeft(Do(cap, s, step).cons) < PopStepsLeft(s.cons) <= 4
    ensures PushStep(step) ==> Do(cap, s, step).cons == s.cons
  {
    hide Readable;
  }

  /** And so is a pop. */
  lemma PopIsWaitFree<T>(cap: nat, blank: T, steps: seq<Step<T>>, s: State<T>) returns (next: Step<T>)
    requires 0 < cap && Runs(cap, Initial(blank), steps, s, false) && !s.cons.ConsIdle?
    ensures PopStep(next) && Enabled(cap, s, next)
    ensures forall step :: PopStep(step) && Enabled(cap, s, step) ==>
      PopStepsLeft(Do(cap, s, step).cons) < PopStepsLeft(s.cons) <= 4
    ensures forall step :: PushStep(step) && Enabled(cap, s, step) ==> Do(cap, s, step).cons == s.cons
  {
    InvRun(cap, Initial(blank), steps, s, false);
    hide Runs, Replay, Readable, PopStepsLeft;
    forall step | Enabled(cap, s, step)
      ensures PopStep(step) ==> PopStepsLeft(Do(cap, s, step).cons) < PopStepsLeft(s.cons) <= 4
      ensures PushStep(step) ==> Do(cap, s, step).cons == s.cons
    {
      PopStepsAdvance(cap, s, step);
    }
    if s.cons.PopReading? { TailIsReadable(cap, s); }
    next := match s.cons
      case PopLoaded => PopCheck
      case PopReloading => PopReload(s.head)
      case PopReading => PopRead(s.tail)
      case PopReleasing(_) => PopRelease;
  }

  lemma TailIsReadable<T>(cap: nat, s: State<T>)
    requires 0 < cap && Inv(cap, s, false) && s.cons.PopReading?
    ensures Readable(cap, s, s.tail)
  {
    hide Replay;
    forall q: nat | s.tail < q < s.consSeen ensures q % cap != s.tail % cap { SameResidue(s.tail, q, cap); }
  }
}
