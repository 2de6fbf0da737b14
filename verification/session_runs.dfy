// The session table over whole runs of calls: a bounded map that never opens a
// call twice, never aliases two, and never strands capacity.

module SessionRuns {
  import opened Words
  import opened Audio
  import opened Chunker
  import opened SessionIndex
  import opened SessionView

  datatype Call =
    | AcquireCall(id: uint32, nowNs: uint64)
    | ExpireIdle(nowNs: uint64, idleNs: uint64)
    | FlushAll(nowNs: uint64)
    | Use(index: nat, s: SessionVal)  // the caller feeds the session it was given, and writes what it likes there

  /** A caller may write any field of a session but whose it is and whether it is live. */
  function Used(t: TableView, index: nat, s: SessionVal): TableView {
    if index < |t.sessions|
    then t.(sessions := t.sessions[index := s.(id := t.sessions[index].id, active := t.sessions[index].active)])
    else t
  }

  function Step(t: TableView, c: Call): TableView
    requires Coherent(t)
  {
    match c
    case AcquireCall(id, nowNs) => Acquire(t, id, nowNs).0
    case ExpireIdle(nowNs, idleNs) => Sweep(t, |t.sessions|, nowNs, Some(idleNs)).0
    case FlushAll(nowNs) => Sweep(t, |t.sessions|, nowNs, None).0
    case Use(index, s) => Used(t, index, s)
  }

  lemma StepCoherent(t: TableView, c: Call)
    requires Coherent(t)
    ensures Coherent(Step(t, c)) && |Step(t, c).sessions| == |t.sessions|
  {
    hide Coherent, Sweep;
    FreeInRange(t);
    match c
    case AcquireCall(id, nowNs) => AcquireCoherent(t, id, nowNs);
    case ExpireIdle(nowNs, idleNs) => SweepCoherent(t, |t.sessions|, nowNs, Some(idleNs));
    case FlushAll(nowNs) => SweepCoherent(t, |t.sessions|, nowNs, None);
    case Use(index, s) =>
      if index < |t.sessions| {
        TouchCoherent(t, index, s.(id := t.sessions[index].id, active := t.sessions[index].active));
      }
  }

  /** t can be reached from a new table of `max` sessions by the calls, in order. */
  ghost predicate Reached(max: nat, calls: seq<Call>, t: TableView)
    decreases |calls|
  {
    if calls == [] then t == NewTable(max)
    else
      exists s: TableView ::
        Reached(max, calls[..|calls| - 1], s) && Coherent(s) && t == Step(s, calls[|calls| - 1])
  }

  /** Every sequence of calls leads somewhere. */
  lemma {:induction false} EveryRunEnds(max: nat, calls: seq<Call>) returns (t: TableView)
    ensures Reached(max, calls, t)
    decreases |calls|
  {
    hide Coherent, Step;
    if calls == [] {
      t := NewTable(max);
    } else {
      var s := EveryRunEnds(max, calls[..|calls| - 1]);
      EveryRunCoherent(max, calls[..|calls| - 1], s);
      t := Step(s, calls[|calls| - 1]);
    }
  }

  /** No sequence of calls leaves the table incoherent. */
  lemma {:induction false} EveryRunCoherent(max: nat, calls: seq<Call>, t: TableView)
    requires Reached(max, calls, t)
    ensures Coherent(t) && |t.sessions| == max
    decreases |calls|
  {
    hide Coherent, Step;
    if calls != [] {
      var s: TableView :| Reached(max, calls[..|calls| - 1], s) && Coherent(s) && t == Step(s, calls[|calls| - 1]);
      EveryRunCoherent(max, calls[..|calls| - 1], s);
      StepCoherent(s, calls[|calls| - 1]);
    }
  }

  // ------------------------------------------------------ what acquire promises, after any run

  /** A live call resolves to its one session and opens nothing; a new one is refused exactly when as many calls are
      live as there are sessions, and otherwise gets a session of its own and becomes live. */
  lemma AcquireIsBoundedMap(max: nat, calls: seq<Call>, t: TableView, id: uint32, nowNs: uint64)
    requires Reached(max, calls, t)
    ensures Coherent(t) && |t.sessions| == max
    ensures var (u, r) := Acquire(t, id, nowNs);
      && (r == None <==> id !in t.dir && |t.dir| == max)
      && (r == None ==> u == t.(rejected := t.rejected + 1))
      && (id in t.dir ==> r == Some(t.dir[id]) && u.dir == t.dir && u.opens == t.opens)
      && (r.Some? && id !in t.dir ==> u.dir == t.dir[id := r.value] && u.opens == t.opens + 1)
      && (r.Some? ==> r.value < max && u.sessions[r.value].id == id && u.sessions[r.value].active)
  {
    hide Reached;
    EveryRunCoherent(max, calls, t);
    FreeInRange(t);
    FreeLeavesRoom(t);
  }

  /** No two live calls ever share a session, and acquiring for one call leaves every other call's session alone. */
  lemma AcquireSparesOthers(max: nat, calls: seq<Call>, t: TableView, id: uint32, nowNs: uint64)
    requires Reached(max, calls, t)
    ensures Coherent(t) && |t.sessions| == max
    ensures var (u, r) := Acquire(t, id, nowNs);
      && (forall c, d :: c in u.dir && d in u.dir && c != d ==> u.dir[c] != u.dir[d])
      && (forall c :: c in t.dir && c != id ==> c in u.dir && u.dir[c] == t.dir[c] < max && r != Some(u.dir[c]))
      && (forall i :: 0 <= i < max && r != Some(i) ==> u.sessions[i] == t.sessions[i])
  {
    hide Reached, Coherent;
    EveryRunCoherent(max, calls, t);
    FreeInRange(t);
    AcquireCoherent(t, id, nowNs);
    NoAliases(Acquire(t, id, nowNs).0);
    forall c: nat | c in t.dir && c != id
      ensures var (u, r) := Acquire(t, id, nowNs); c in u.dir && u.dir[c] == t.dir[c] && r != Some(u.dir[c])
    {
      AcquireOther(t, id, nowNs, c);
    }
  }

  lemma NoAliases(t: TableView)
    requires Coherent(t)
    ensures forall c, d :: c in t.dir && d in t.dir && c != d ==> t.dir[c] != t.dir[d]
  {
    hide Partitions, Tied;
  }

  /** What opening keeps of the storage it reuses: the assembler, whatever state the last call left it in. */
  lemma OpeningKeepsTheAssembler(t: TableView, id: uint32, nowNs: uint64)
    requires Coherent(t) && id !in t.dir && |t.dir| < |t.sessions|
    ensures var (u, r) := Acquire(t, id, nowNs);
      r.Some? && u.sessions[r.value].assembler == t.sessions[r.value].assembler && !u.sessions[r.value].haveLastSeq
  {
  }

  // ------------------------------------------------------ what a sweep promises

  /** The calls that outlive a sweep of the sessions numbered below n. */
  ghost function Survivors(t: TableView, n: nat, nowNs: uint64, idleNs: Option<uint64>): map<nat, nat>
    requires Coherent(t)
  {
    map id | id in t.dir && !(t.dir[id] < n && Swept(t.sessions[t.dir[id]], nowNs, idleNs)) :: t.dir[id]
  }

  lemma SurvivorsShrink(t: TableView, i: nat, nowNs: uint64, idleNs: Option<uint64>)
    requires Coherent(t) && i < |t.sessions|
    ensures Survivors(t, i + 1, nowNs, idleNs) ==
      if Swept(t.sessions[i], nowNs, idleNs) then Survivors(t, i, nowNs, idleNs) - {t.sessions[i].id}
      else Survivors(t, i, nowNs, idleNs)
  {
    hide Partitions, Injective;
    var id := t.sessions[i].id;
    assert forall c :: c in t.dir && t.dir[c] == i ==> c == id;
    if Swept(t.sessions[i], nowNs, idleNs) {
      var c :| c in t.dir && t.dir[c] == i;
      SplitOff(t, i, id, nowNs, idleNs);
    }
  }

  lemma SplitOff(t: TableView, i: nat, id: nat, nowNs: uint64, idleNs: Option<uint64>)
    requires Coherent(t) && i < |t.sessions| && Swept(t.sessions[i], nowNs, idleNs)
    requires forall c :: c in t.dir ==> (t.dir[c] == i <==> c == id)
    ensures Survivors(t, i + 1, nowNs, idleNs) == Survivors(t, i, nowNs, idleNs) - {id}
  {
    hide Partitions, Injective;
    var a, b := Survivors(t, i + 1, nowNs, idleNs), Survivors(t, i, nowNs, idleNs) - {id};
    forall c ensures c in a <==> c in b {
    }
  }

  lemma {:induction false} SweepClosesExactly(t: TableView, n: nat, nowNs: uint64, idleNs: Option<uint64>)
    requires Coherent(t) && n <= |t.sessions|
    ensures Sweep(t, n, nowNs, idleNs).0.dir == Survivors(t, n, nowNs, idleNs)
  {
    hide Survivors, Coherent, SweepOne;
    if n == 0 {
      AllSurvive(t, nowNs, idleNs);
    } else {
      SweepClosesExactly(t, n - 1, nowNs, idleNs);
      SurvivorsShrink(t, n - 1, nowNs, idleNs);
      var u := Sweep(t, n - 1, nowNs, idleNs).0;
      OneCloses(u, n - 1, nowNs, idleNs);
    }
  }

  lemma OneCloses(t: TableView, i: nat, nowNs: uint64, idleNs: Option<uint64>)
    requires i < |t.sessions|
    ensures SweepOne(t, i, nowNs, idleNs).0.dir ==
      if Swept(t.sessions[i], nowNs, idleNs) then t.dir - {t.sessions[i].id} else t.dir
  {
  }

  lemma AllSurvive(t: TableView, nowNs: uint64, idleNs: Option<uint64>)
    requires Coherent(t)
    ensures Survivors(t, 0, nowNs, idleNs) == t.dir
  {
  }

  function AfterSweep(s: SessionVal, nowNs: uint64, idleNs: Option<uint64>): SessionVal {
    if Swept(s, nowNs, idleNs) then s.(assembler := FlushStep(s.assembler, nowNs).0, active := false) else s
  }

  /** The event of the chunk a sweep closes, if it closes one. */
  function Tail(s: SessionVal, nowNs: uint64, idleNs: Option<uint64>): seq<ChunkEvent> {
    if Swept(s, nowNs, idleNs) && s.assembler.active
    then [CloseEvent(s.assembler, StreamEnd, nowNs).(sessionId := s.id)]
    else []
  }

  /** The events of the chunks a sweep closes, in session order. */
  function Tails(s: seq<SessionVal>, n: nat, nowNs: uint64, idleNs: Option<uint64>): seq<ChunkEvent>
    requires n <= |s|
  {
    if n == 0 then [] else Tails(s, n - 1, nowNs, idleNs) + Tail(s[n - 1], nowNs, idleNs)
  }

  lemma SweepOneTouches(t: TableView, i: nat, nowNs: uint64, idleNs: Option<uint64>)
    requires i < |t.sessions|
    ensures SweepOne(t, i, nowNs, idleNs).0.sessions == t.sessions[i := AfterSweep(t.sessions[i], nowNs, idleNs)]
    ensures SweepOne(t, i, nowNs, idleNs).1 == Tail(t.sessions[i], nowNs, idleNs)
  {
  }

  lemma {:induction false} SweepTouchesExactly(t: TableView, n: nat, nowNs: uint64, idleNs: Option<uint64>)
    requires n <= |t.sessions|
    ensures forall i :: 0 <= i < n ==>
      Sweep(t, n, nowNs, idleNs).0.sessions[i] == AfterSweep(t.sessions[i], nowNs, idleNs)
    ensures Sweep(t, n, nowNs, idleNs).1 == Tails(t.sessions, n, nowNs, idleNs)
  {
    hide SweepOne, AfterSweep, Tail;
    if n > 0 {
      SweepTouchesExactly(t, n - 1, nowNs, idleNs);
      SweepOneTouches(Sweep(t, n - 1, nowNs, idleNs).0, n - 1, nowNs, idleNs);
    }
  }

  /** After any run, a sweep closes exactly the sessions due, flushing exactly their open chunks, and leaves the
      directory and storage of every other call as they were. */
  lemma SweepIsExact(max: nat, calls: seq<Call>, t: TableView, nowNs: uint64, idleNs: Option<uint64>)
    requires Reached(max, calls, t)
    ensures Coherent(t) && |t.sessions| == max
    ensures var (u, events) := Sweep(t, max, nowNs, idleNs);
      && (forall id :: id in u.dir <==> id in t.dir && !Swept(t.sessions[t.dir[id]], nowNs, idleNs))
      && (forall id :: id in u.dir ==> u.dir[id] == t.dir[id] && u.sessions[u.dir[id]] == t.sessions[t.dir[id]])
      && events == Tails(t.sessions, max, nowNs, idleNs)
  {
    hide Partitions, Sweep;
    EveryRunCoherent(max, calls, t);
    SweepClosesExactly(t, max, nowNs, idleNs);
    SweepTouchesExactly(t, max, nowNs, idleNs);
  }
}
