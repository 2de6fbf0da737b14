// The event path and its shutdown handshake: the hot thread pushes chunk events
// and counts the ones the ring refuses, then stores `done`; the publisher prints
// until it has read `done` and, after that, found the ring empty.

module Shutdown {
  import opened Words
  import opened RingProtocol
  import opened RingCalls

  datatype Publisher = AtTop | CheckingEmpty | Popping | Exited

  datatype Process<+T> = Process(
    ring: State<T>,
    chunks: nat, drops: nat,
    done: bool, headAtDone: nat,
    pub: Publisher, printed: seq<T>)

  datatype Move<+T> =
    | Emit(event: T)               // the hot thread closes a chunk and calls try_push
    | HotRing(step: Step<T>)       // a step of that call
    | StoreDone                    // hot_loop has returned
    | LoadDone(flag: bool)         // the loop condition's first operand
    | LoadEmpty(seen: nat)         // and its second, read only once done was seen
    | PubRing(step: Step<T>)       // a step of the publisher's try_pop

  function Start<T>(blank: T): Process<T> {
    Process(Initial(blank), 0, 0, false, 0, AtTop, [])
  }

  ghost predicate Can<T>(cap: nat, p: Process<T>, m: Move<T>)
    requires 0 < cap
  {
    match m
    case Emit(_) => !p.done && p.ring.prod.ProdIdle?
    case HotRing(step) => PushStep(step) && Enabled(cap, p.ring, step)
    case StoreDone => !p.done && p.ring.prod.ProdIdle?
    case LoadDone(flag) => p.pub.AtTop? && (flag ==> p.done)
    case LoadEmpty(seen) => p.pub.CheckingEmpty? && p.ring.consSeen <= seen <= p.ring.head
    case PubRing(step) => p.pub.Popping? && PopStep(step) && Enabled(cap, p.ring, step)
  }

  ghost function Act<T>(cap: nat, p: Process<T>, m: Move<T>): Process<T>
    requires 0 < cap && Can(cap, p, m)
  {
    match m
    case Emit(event) => p.(chunks := p.chunks + 1, ring := p.ring.(prod := PushLoaded(event)))
    case HotRing(step) =>
      var r := Do(cap, p.ring, step);
      p.(ring := r, drops := p.drops + if step.PushReload? && r.prod.ProdIdle? then 1 else 0)
    case StoreDone => p.(done := true, headAtDone := p.ring.head)
    case LoadDone(flag) =>
      // Acquiring a set flag acquires every store made before it was set.
      if flag then p.(pub := CheckingEmpty, ring := p.ring.(consSeen := Max(p.ring.consSeen, p.headAtDone)))
      else p.(pub := Popping, ring := p.ring.(cons := PopLoaded))
    case LoadEmpty(seen) =>
      var r := p.ring.(consSeen := seen);
      if seen == p.ring.tail then p.(pub := Exited, ring := r)
      else p.(pub := Popping, ring := r.(cons := PopLoaded))
    case PubRing(step) =>
      var r := Do(cap, p.ring, step);
      p.(ring := r,
         pub := if r.cons.ConsIdle? then AtTop else Popping,
         printed := p.printed + if step.PopRelease? then [p.ring.cons.v] else [])
  }

  ghost predicate Runs<T>(cap: nat, p: Process<T>, moves: seq<Move<T>>, q: Process<T>)
    requires 0 < cap
    decreases |moves|
  {
    if moves == [] then p == q
    else Can(cap, p, moves[0]) && Runs(cap, Act(cap, p, moves[0]), moves[1..], q)
  }

  ghost predicate Inv<T>(cap: nat, p: Process<T>) {
    && RingProtocol.Inv(cap, p.ring, false)
    && p.printed == Pops(p.ring.history)
    && p.drops == Fulls(p.ring.history)
    && p.chunks == |Pushes(p.ring.history)| + p.drops + (if p.ring.prod.ProdIdle? then 0 else 1)
    && (p.done ==> p.ring.prod.ProdIdle? && p.headAtDone == p.ring.head)
    && (p.pub.Popping? <==> !p.ring.cons.ConsIdle?)
    && (p.pub.CheckingEmpty? ==> p.done && p.ring.consSeen == p.ring.head)
    && (p.pub.Exited? ==> p.done && p.ring.tail == p.ring.head)
  }

  lemma HistoryGrows<T>(history: seq<Outcome<T>>, o: Outcome<T>)
    ensures Pushes(history + [o]) == Pushes(history) + if o.Pushed? then [o.v] else []
    ensures Pops(history + [o]) == Pops(history) + if o.Popped? then [o.v] else []
    ensures Fulls(history + [o]) == Fulls(history) + if o.RefusedFull? then 1 else 0
  {
    assert (history + [o])[..|history|] == history;
  }

  lemma EmitKeepsInv<T>(cap: nat, p: Process<T>, event: T)
    requires 0 < cap && Inv(cap, p) && Can(cap, p, Emit(event))
    ensures Inv(cap, Act(cap, p, Emit(event)))
  {
    hide Replay, Readable, RingProtocol.Inv, Pushes, Pops, Fulls;
    InvStep(cap, p.ring, PushStart(event), false);
  }

  lemma DoneKeepsInv<T>(cap: nat, p: Process<T>)
    requires 0 < cap && Inv(cap, p) && Can(cap, p, StoreDone)
    ensures Inv(cap, Act(cap, p, StoreDone))
  {
    hide Replay, Readable, RingProtocol.Inv, Pushes, Pops, Fulls;
  }

  lemma HotStepKeepsInv<T>(cap: nat, p: Process<T>, step: Step<T>)
    requires 0 < cap && Inv(cap, p) && Can(cap, p, HotRing(step))
    ensures Inv(cap, Act(cap, p, HotRing(step)))
  {
    hide Replay, Readable, RingProtocol.Inv, Pushes, Pops, Fulls;
    InvStep(cap, p.ring, step, false);
    if step.PushPublish? { HistoryGrows(p.ring.history, Pushed(p.ring.prod.v)); }
    if step.PushReload? { HistoryGrows<T>(p.ring.history, RefusedFull); }
  }

  lemma InvHotMove<T>(cap: nat, p: Process<T>, m: Move<T>)
    requires 0 < cap && Inv(cap, p) && Can(cap, p, m)
    requires m.Emit? || m.HotRing? || m.StoreDone?
    ensures Inv(cap, Act(cap, p, m))
  {
    hide Inv, Act, Can;
    match m
    case Emit(event) => EmitKeepsInv(cap, p, event);
    case StoreDone => DoneKeepsInv(cap, p);
    case HotRing(step) => HotStepKeepsInv(cap, p, step);
  }

  lemma InvLoopMove<T>(cap: nat, p: Process<T>, m: Move<T>)
    requires 0 < cap && Inv(cap, p) && Can(cap, p, m)
    requires m.LoadDone? || m.LoadEmpty?
    ensures Inv(cap, Act(cap, p, m))
  {
    hide Replay, Admit, Readable;
    match m
    case LoadDone(flag) =>
      if flag {
        InvStep(cap, p.ring, ConsumerObserves(Max(p.ring.consSeen, p.headAtDone)), false);
      } else {
        InvStep(cap, p.ring, PopStart, false);
      }
    case LoadEmpty(seen) =>
      InvStep(cap, p.ring, ConsumerObserves(seen), false);
      if seen != p.ring.tail { InvStep(cap, p.ring.(consSeen := seen), PopStart, false); }
  }

  lemma InvPopMove<T>(cap: nat, p: Process<T>, m: Move<T>)
    requires 0 < cap && Inv(cap, p) && Can(cap, p, m)
    requires m.PubRing?
    ensures Inv(cap, Act(cap, p, m))
  {
    hide Replay, Admit, Readable, Pushes, Pops, Fulls, RingProtocol.Inv;
    InvStep(cap, p.ring, m.step, false);
    match m.step
    case PopRelease => HistoryGrows(p.ring.history, Popped(p.ring.cons.v));
    case PopReload(_) => HistoryGrows<T>(p.ring.history, RefusedEmpty);
    case _ =>
  }

  lemma InvMove<T>(cap: nat, p: Process<T>, m: Move<T>)
    requires 0 < cap && Inv(cap, p) && Can(cap, p, m)
    ensures Inv(cap, Act(cap, p, m))
  {
    hide Inv, Act, Can;
    match m
    case PubRing(_) => InvPopMove(cap, p, m);
    case LoadDone(_) => InvLoopMove(cap, p, m);
    case LoadEmpty(_) => InvLoopMove(cap, p, m);
    case _ => InvHotMove(cap, p, m);
  }

  lemma StartsWell<T>(cap: nat, blank: T)
    requires 0 < cap
    ensures Inv(cap, Start(blank))
  {
  }

  lemma {:induction false} InvRun<T>(cap: nat, p: Process<T>, moves: seq<Move<T>>, q: Process<T>)
    requires 0 < cap && Inv(cap, p) && Runs(cap, p, moves, q)
    ensures Inv(cap, q)
    decreases |moves|
  {
    if moves != [] {
      InvMove(cap, p, moves[0]);
      InvRun(cap, Act(cap, p, moves[0]), moves[1..], q);
    }
  }

  // ------------------------------------------------------ what was emitted

  /** The events the hot thread emitted. */
  function Emitted<T>(moves: seq<Move<T>>): seq<T> {
    if moves == [] then []
    else (if moves[0].Emit? then [moves[0].event] else []) + Emitted(moves[1..])
  }

  lemma MoveAnswers<T>(cap: nat, p: Process<T>, m: Move<T>, events: seq<T>)
    requires 0 < cap && Can(cap, p, m) && PushesAnswered(events, p.ring)
    ensures PushesAnswered(events + if m.Emit? then [m.event] else [], Act(cap, p, m).ring)
  {
    hide PushAnswers, Readable, Do, Enabled;
    assert events + [] == events;
    match m
    case Emit(event) => EmitStarts(cap, p, event, events);
    case HotRing(step) => PushStepAnswers(cap, p.ring, step, events);
    case PubRing(step) => PushStepAnswers(cap, p.ring, step, events);
    case _ =>
  }

  lemma EmitStarts<T>(cap: nat, p: Process<T>, event: T, events: seq<T>)
    requires 0 < cap && Can(cap, p, Emit(event)) && PushesAnswered(events, p.ring)
    ensures PushesAnswered(events + [event], Act(cap, p, Emit(event)).ring)
  {
    hide PushAnswers;
    PushStepAnswers(cap, p.ring, PushStart(event), events);
  }

  lemma {:induction false} RunEmits<T>(cap: nat, p: Process<T>, moves: seq<Move<T>>, q: Process<T>, events: seq<T>)
    requires 0 < cap && Runs(cap, p, moves, q) && PushesAnswered(events, p.ring)
    ensures PushesAnswered(events + Emitted(moves), q.ring)
    decreases |moves|
  {
    hide PushesAnswered, Act, Can;
    if moves == [] {
      assert events + Emitted(moves) == events;
    } else {
      var now := if moves[0].Emit? then [moves[0].event] else [];
      MoveAnswers(cap, p, moves[0], events);
      RunEmits(cap, Act(cap, p, moves[0]), moves[1..], q, events + now);
      assert events + now + Emitted(moves[1..]) == events + Emitted(moves);
    }
  }

  /** In every interleaving, the publisher exits only after printing, in order, exactly the events emitted but for those
      whose push found the ring full; these are what is counted as dropped, and all that were emitted are counted as
      chunks. */
  lemma ShutdownLosesNothing<T>(cap: nat, blank: T, moves: seq<Move<T>>, q: Process<T>)
    requires 0 < cap && Runs(cap, Start(blank), moves, q)
    ensures var events, answers := Emitted(moves), PushAnswers(q.ring.history);
      q.pub.Exited? ==>
        && q.done && |answers| == |events|
        && q.printed == Taken(events, answers)
        && q.chunks == |events| && q.drops == |events| - |q.printed|
    ensures q.pub.Exited? ==> q.printed == Pushes(q.ring.history) && q.chunks == |q.printed| + q.drops
    ensures exists rest :: Pushes(q.ring.history) == q.printed + rest
  {
    hide Runs, PushAnswers, Pushes, Pops, Fulls;
    StartsWell(cap, blank);
    InvRun(cap, Start(blank), moves, q);
    ReplayConserves(cap, q.ring.history, false);
    NothingAsked(blank);
    RunEmits(cap, Start(blank), moves, q, []);
    assert [] + Emitted(moves) == Emitted(moves);
    AnswersAreCounted(q.ring.history);
    PushesAreTaken(Emitted(moves), q.ring.history);
  }

  // ------------------------------------------------------ the publisher prints

  lemma FinishPop<T>(cap: nat, p: Process<T>) returns (moves: seq<Move<T>>, q: Process<T>)
    requires 0 < cap && Inv(cap, p) && p.pub.Popping? && p.ring.cons.PopReading?
    ensures Runs(cap, p, moves, q) && forall m :: m in moves ==> m.PubRing?
    ensures p.ring.tail < |p.ring.written| && q.printed == p.printed + [p.ring.written[p.ring.tail]] && q.pub.AtTop?
  {
    hide Replay, Readable, Pops, Pushes, Fulls;
    TailIsReadable(cap, p.ring);
    var read, release := PubRing(PopRead(p.ring.tail)), PubRing(PopRelease);
    var r := Act(cap, p, read);
    q := Act(cap, r, release);
    moves := [read, release];
    assert moves[1..] == [release] && moves[1..][1..] == [];
    assert Runs(cap, q, [], q) && Runs(cap, r, [release], q);
  }

  lemma CheckThenPop<T>(cap: nat, p: Process<T>) returns (moves: seq<Move<T>>, q: Process<T>)
    requires 0 < cap && Inv(cap, p) && p.pub.Popping? && p.ring.cons.PopLoaded? && p.ring.tail < p.ring.head
    ensures Runs(cap, p, moves, q) && forall m :: m in moves ==> m.PubRing?
    ensures p.ring.tail < |p.ring.written| && q.printed == p.printed + [p.ring.written[p.ring.tail]] && q.pub.AtTop?
  {
    hide Replay, Readable, Pops, Pushes, Fulls, RingProtocol.Inv;
    var check := PubRing(PopCheck);
    var r := Act(cap, p, check);
    InvMove(cap, p, check);
    if r.ring.cons.PopReloading? {
      var reload := PubRing(PopReload(r.ring.head));
      SeenAtMostHead(cap, r.ring);
      var s := Act(cap, r, reload);
      InvMove(cap, r, reload);
      var rest;
      rest, q := FinishPop(cap, s);
      moves := [check, reload] + rest;
      RunsTwo(cap, p, check, r, reload, s, rest, q);
    } else {
      var rest;
      rest, q := FinishPop(cap, r);
      moves := [check] + rest;
      RunsOne(cap, p, check, r, rest, q);
    }
  }

  lemma SeenAtMostHead<T>(cap: nat, s: State<T>)
    requires RingProtocol.Inv(cap, s, false)
    ensures s.consSeen <= s.head && s.tail <= s.head
  {
    hide Replay;
  }

  lemma RunsOne<T>(cap: nat, p: Process<T>, m: Move<T>, r: Process<T>, rest: seq<Move<T>>, q: Process<T>)
    requires 0 < cap && Can(cap, p, m) && r == Act(cap, p, m) && Runs(cap, r, rest, q)
    ensures Runs(cap, p, [m] + rest, q)
  {
    hide Can, Act;
    assert ([m] + rest)[1..] == rest;
  }

  lemma RunsTwo<T>(cap: nat, p: Process<T>, m: Move<T>, r: Process<T>, n: Move<T>, s: Process<T>, rest: seq<Move<T>>,
                   q: Process<T>)
    requires 0 < cap && Can(cap, p, m) && r == Act(cap, p, m) && Can(cap, r, n) && s == Act(cap, r, n)
    requires Runs(cap, s, rest, q)
    ensures Runs(cap, p, [m, n] + rest, q)
  {
    hide Can, Act;
    RunsOne(cap, r, n, s, rest, q);
    RunsOne(cap, p, m, r, [n] + rest, q);
    assert [m] + ([n] + rest) == [m, n] + rest;
  }

  /** The publisher never waits for the end: at the top of its loop, with an event in the ring, it can print the oldest
      by moves of its own, whether or not the hot thread has finished. */
  lemma PublisherCanPrint<T>(cap: nat, blank: T, before: seq<Move<T>>, p: Process<T>)
    returns (moves: seq<Move<T>>, q: Process<T>)
    requires 0 < cap && Runs(cap, Start(blank), before, p) && p.pub.AtTop? && p.ring.tail < p.ring.head
    ensures Runs(cap, p, moves, q) && forall m :: m in moves ==> m.LoadDone? || m.LoadEmpty? || m.PubRing?
    ensures p.ring.tail < |p.ring.written| && q.printed == p.printed + [p.ring.written[p.ring.tail]] && q.pub.AtTop?
  {
    hide Replay, Readable, Pops, Pushes, Fulls, RingProtocol.Inv;
    StartsWell(cap, blank);
    InvRun(cap, Start(blank), before, p);
    var load := LoadDone(p.done);
    var r := Act(cap, p, load);
    InvMove(cap, p, load);
    var rest;
    if p.done {
      SeenAtMostHead(cap, r.ring);
      var look := LoadEmpty(r.ring.head);
      var s := Act(cap, r, look);
      InvMove(cap, r, look);
      rest, q := CheckThenPop(cap, s);
      moves := [load, look] + rest;
      RunsTwo(cap, p, load, r, look, s, rest, q);
    } else {
      rest, q := CheckThenPop(cap, r);
      moves := [load] + rest;
      RunsOne(cap, p, load, r, rest, q);
    }
  }

  /** And once the hot thread has finished and the ring is empty, it exits. */
  lemma PublisherCanExit<T>(cap: nat, blank: T, before: seq<Move<T>>, p: Process<T>)
    returns (moves: seq<Move<T>>, q: Process<T>)
    requires 0 < cap && Runs(cap, Start(blank), before, p) && p.pub.AtTop? && p.done && p.ring.tail == p.ring.head
    ensures Runs(cap, p, moves, q) && q.pub.Exited? && q.printed == p.printed
  {
    hide Replay, Readable, Pops, Pushes, Fulls, RingProtocol.Inv;
    StartsWell(cap, blank);
    InvRun(cap, Start(blank), before, p);
    var load := LoadDone(true);
    var r := Act(cap, p, load);
    InvMove(cap, p, load);
    SeenAtMostHead(cap, r.ring);
    var look := LoadEmpty(r.ring.head);
    q := Act(cap, r, look);
    moves := [load, look];
    RunsTwo(cap, p, load, r, look, q, [], q);
    assert [load, look] + [] == moves;
  }
}
