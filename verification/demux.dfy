// Demultiplexing without interference: whatever other calls do, a call's events
// are those of an assembler that hears only that call's own frames.

module Demux {
  import opened Words
  import opened Audio
  import opened Chunker
  import opened SessionIndex
  import opened SessionView
  import opened SessionRuns
  import opened HotLoop

  /** The frames of call c among the turns the loop gets to, with the times they were dequeued at. */
  function Own(cfg: LoopConfig, turns: seq<Turn>, c: uint32): seq<(AudioFrame, uint64)> {
    if turns == [] || PastDeadline(cfg, turns[0]) then []
    else
      (if turns[0].popped.Some? && turns[0].popped.value.hdr.sessionId == c
       then [(turns[0].popped.value, turns[0].dequeueNs)] else [])
      + Own(cfg, turns[1..], c)
  }

  /** An assembler on its own, starting as a and fed fs; its events carry c's id. */
  function Lone(cfg: ChunkerConfig, a: AssemblerState, fs: seq<(AudioFrame, uint64)>, c: uint32)
    : (AssemblerState, seq<ChunkEvent>)
    decreases |fs|
  {
    if fs == [] then (a, [])
    else
      var (b, e) := FrameStep(cfg, a, fs[0].0, fs[0].1);
      var (z, rest) := Lone(cfg, b, fs[1..], c);
      (z, (if e.Some? then [e.value.event.(sessionId := c)] else []) + rest)
  }

  /** The events that carry call c's id. */
  function Tagged(events: seq<ChunkEvent>, c: uint32): seq<ChunkEvent> {
    if events == [] then []
    else
      var e := events[|events| - 1];
      Tagged(events[..|events| - 1], c) + if e.sessionId == c then [e] else []
  }

  lemma {:induction false} TaggedConcat(a: seq<ChunkEvent>, b: seq<ChunkEvent>, c: uint32)
    ensures Tagged(a + b, c) == Tagged(a, c) + Tagged(b, c)
  {
    if b == [] {
      assert a + b == a;
    } else {
      TaggedConcat(a, b[..|b| - 1], c);
      assert (a + b)[..|a + b| - 1] == a + b[..|b| - 1];
    }
  }

  // ------------------------------------------------------ one turn

  predicate Due(p: Progress, turn: Turn) { turn.loopNs >= p.nextSweepNs }

  lemma {:induction false} TailsOfOthers(s: seq<SessionVal>, n: nat, nowNs: uint64, idleNs: Option<uint64>, c: uint32)
    requires n <= |s|
    requires forall i :: 0 <= i < n && Swept(s[i], nowNs, idleNs) ==> s[i].id != c
    ensures Tagged(Tails(s, n, nowNs, idleNs), c) == []
  {
    if n > 0 {
      TailsOfOthers(s, n - 1, nowNs, idleNs, c);
      TaggedConcat(Tails(s, n - 1, nowNs, idleNs), Tail(s[n - 1], nowNs, idleNs), c);
      TaggedOne(Tail(s[n - 1], nowNs, idleNs), c);
    }
  }

  lemma TaggedOne(events: seq<ChunkEvent>, c: uint32)
    requires |events| <= 1
    ensures Tagged(events, c) == if events != [] && events[0].sessionId == c then events else []
  {
    if events != [] { assert events[..0] == []; }
  }

  /** A sweep that spares call c does nothing to it and says nothing about it. */
  lemma SweepSpares(cfg: LoopConfig, p: Progress, loopNs: uint64, c: uint32)
    requires Coherent(p.table)
    requires c in p.table.dir && loopNs >= p.nextSweepNs ==>
      !Swept(p.table.sessions[p.table.dir[c]], loopNs, Some(cfg.idleNs))
    ensures var t, u := p.table, SweepIfDue(cfg, p, loopNs).table;
      && (c in u.dir <==> c in t.dir)
      && (c in t.dir ==> u.dir[c] == t.dir[c] < |u.sessions| && u.sessions[u.dir[c]] == t.sessions[t.dir[c]])
    ensures Tagged(SweepIfDue(cfg, p, loopNs).emitted, c) == Tagged(p.emitted, c)
  {
    hide Partitions, Sweep, Tails;
    if loopNs >= p.nextSweepNs {
      var t, n := p.table, |p.table.sessions|;
      SweepClosesExactly(t, n, loopNs, Some(cfg.idleNs));
      SweepTouchesExactly(t, n, loopNs, Some(cfg.idleNs));
      forall i | 0 <= i < n && Swept(t.sessions[i], loopNs, Some(cfg.idleNs)) ensures t.sessions[i].id != c {
        LiveSession(t, i, c);
      }
      TailsOfOthers(t.sessions, n, loopNs, Some(cfg.idleNs), c);
      TaggedConcat(p.emitted, Tails(t.sessions, n, loopNs, Some(cfg.idleNs)), c);
    }
  }

  /** A sweep closes the call or leaves its session as it was. */
  lemma SweepClosesOrSpares(cfg: LoopConfig, p: Progress, loopNs: uint64, c: uint32)
    requires Coherent(p.table)
    ensures var t, u := p.table, SweepIfDue(cfg, p, loopNs).table;
      c in u.dir ==>
        c in t.dir && u.dir[c] == t.dir[c] < |u.sessions| && u.sessions[u.dir[c]] == t.sessions[t.dir[c]]
  {
    hide Partitions, Sweep, Tails;
    if loopNs >= p.nextSweepNs {
      SweepClosesExactly(p.table, |p.table.sessions|, loopNs, Some(cfg.idleNs));
      SweepTouchesExactly(p.table, |p.table.sessions|, loopNs, Some(cfg.idleNs));
    }
  }

  /** Another call's frame does nothing to call c. */
  lemma OthersFrame(cfg: LoopConfig, p: Progress, f: AudioFrame, nowNs: uint64, c: uint32)
    requires Coherent(p.table) && f.hdr.sessionId != c
    ensures var t, u := p.table, Handle(cfg, p, f, nowNs).table;
      && (c in u.dir <==> c in t.dir)
      && (c in t.dir ==> u.dir[c] == t.dir[c] < |u.sessions| && u.sessions[u.dir[c]] == t.sessions[t.dir[c]])
    ensures Tagged(Handle(cfg, p, f, nowNs).emitted, c) == Tagged(p.emitted, c)
  {
    hide FrameStep, Tagged;
    AcquireOther(p.table, f.hdr.sessionId, nowNs, c);
    var (t, i) := Acquire(p.table, f.hdr.sessionId, nowNs);
    if i.Some? {
      var events := Fed(cfg.chunker, t.sessions[i.value], f, nowNs).2;
      TaggedConcat(p.emitted, events, c);
      TaggedOne(events, c);
    }
  }

  /** A live call's own frame goes to its own assembler. */
  lemma OwnFrame(cfg: LoopConfig, p: Progress, f: AudioFrame, nowNs: uint64)
    requires Coherent(p.table) && f.hdr.sessionId in p.table.dir
    ensures var c, t, u := f.hdr.sessionId, p.table, Handle(cfg, p, f, nowNs).table;
      && c in u.dir && u.dir[c] == t.dir[c] < |u.sessions|
      && u.sessions[u.dir[c]].assembler == FrameStep(cfg.chunker, t.sessions[t.dir[c]].assembler, f, nowNs).0
      && Tagged(Handle(cfg, p, f, nowNs).emitted, c) == Tagged(p.emitted, c) +
         EventFor(FrameStep(cfg.chunker, t.sessions[t.dir[c]].assembler, f, nowNs).1, c)
  {
    hide FrameStep;
    var c := f.hdr.sessionId;
    var (t, i) := Acquire(p.table, c, nowNs);
    var events := Fed(cfg.chunker, t.sessions[i.value], f, nowNs).2;
    TaggedConcat(p.emitted, events, c);
    TaggedOne(events, c);
  }

  function EventFor(e: Option<Closed>, c: uint32): seq<ChunkEvent> {
    if e.Some? then [e.value.event.(sessionId := c)] else []
  }

  // ------------------------------------------------------ a live call

  /** No sweep of the run closes call c. */
  ghost predicate Spared(cfg: LoopConfig, p: Progress, turns: seq<Turn>, c: uint32)
    requires Coherent(p.table)
    decreases |turns|
  {
    turns == [] || PastDeadline(cfg, turns[0]) ||
    (OneTurnCoherent(cfg, p, turns[0]);
     && c in p.table.dir
     && (Due(p, turns[0]) ==> !Swept(p.table.sessions[p.table.dir[c]], turns[0].loopNs, Some(cfg.idleNs)))
     && Spared(cfg, OneTurn(cfg, p, turns[0]), turns[1..], c))
  }

  /** One turn as call c sees it: its assembler hears its own frame, if that is what was popped, and nothing else. */
  lemma TurnOfLiveCall(cfg: LoopConfig, p: Progress, turn: Turn, c: uint32)
    requires Coherent(p.table) && c in p.table.dir
    requires Due(p, turn) ==> !Swept(p.table.sessions[p.table.dir[c]], turn.loopNs, Some(cfg.idleNs))
    ensures var t, q := p.table, OneTurn(cfg, p, turn);
      var mine := turn.popped.Some? && turn.popped.value.hdr.sessionId == c;
      && c in q.table.dir && q.table.dir[c] == t.dir[c] < |q.table.sessions|
      && (mine ==>
           var (a, e) := FrameStep(cfg.chunker, t.sessions[t.dir[c]].assembler, turn.popped.value, turn.dequeueNs);
           && q.table.sessions[t.dir[c]].assembler == a
           && Tagged(q.emitted, c) == Tagged(p.emitted, c) + EventFor(e, c))
      && (!mine ==>
           && q.table.sessions[t.dir[c]].assembler == t.sessions[t.dir[c]].assembler
           && Tagged(q.emitted, c) == Tagged(p.emitted, c))
  {
    hide SweepIfDue, Handle, FrameStep, EventFor, Tagged, Partitions, Injective, ActiveIfLive, Swept;
    SweepSpares(cfg, p, turn.loopNs, c);
    SweepIfDueCoherent(cfg, p, turn.loopNs);
    var q := SweepIfDue(cfg, p, turn.loopNs);
    if turn.popped.Some? {
      if turn.popped.value.hdr.sessionId == c {
        OwnFrame(cfg, q, turn.popped.value, turn.dequeueNs);
      } else {
        OthersFrame(cfg, q, turn.popped.value, turn.dequeueNs, c);
      }
    }
  }

  /** However calls interleave, and whatever is refused or expires around it, a live call that is not itself expired
      emits exactly what its assembler would emit alone. */
  lemma {:induction false} LiveCallIsAlone(cfg: LoopConfig, p: Progress, turns: seq<Turn>, c: uint32)
    requires Coherent(p.table) && c in p.table.dir && Spared(cfg, p, turns, c)
    ensures var t, q := p.table, Run(cfg, p, turns);
      var (a, events) := Lone(cfg.chunker, t.sessions[t.dir[c]].assembler, Own(cfg, turns, c), c);
      && c in q.table.dir && q.table.dir[c] == t.dir[c] < |q.table.sessions|
      && q.table.sessions[t.dir[c]].assembler == a
      && Tagged(q.emitted, c) == Tagged(p.emitted, c) + events
    decreases |turns|
  {
    hide OneTurn, FrameStep, EventFor, Tagged, Partitions, Injective, ActiveIfLive, Swept, Own, Lone;
    if turns == [] || PastDeadline(cfg, turns[0]) {
      LoneOverNothing(cfg, p.table.sessions[p.table.dir[c]].assembler, turns, c);
    } else {
      var q := OneTurn(cfg, p, turns[0]);
      TurnOfLiveCall(cfg, p, turns[0], c);
      OneTurnCoherent(cfg, p, turns[0]);
      LiveCallIsAlone(cfg, q, turns[1..], c);
      if turns[0].popped.Some? && turns[0].popped.value.hdr.sessionId == c {
        LoneStep(cfg, p.table.sessions[p.table.dir[c]].assembler, turns, c);
      } else {
        OwnSkips(cfg, turns, c);
      }
    }
  }

  lemma LoneOverNothing(cfg: LoopConfig, a: AssemblerState, turns: seq<Turn>, c: uint32)
    requires turns == [] || PastDeadline(cfg, turns[0])
    ensures Lone(cfg.chunker, a, Own(cfg, turns, c), c) == (a, [])
  {
  }

  lemma OwnSkips(cfg: LoopConfig, turns: seq<Turn>, c: uint32)
    requires turns != [] && !PastDeadline(cfg, turns[0])
    requires turns[0].popped.Some? ==> turns[0].popped.value.hdr.sessionId != c
    ensures Own(cfg, turns, c) == Own(cfg, turns[1..], c)
  {
  }

  /** Own frames are consumed first to last. */
  lemma LoneStep(cfg: LoopConfig, a: AssemblerState, turns: seq<Turn>, c: uint32)
    requires turns != [] && !PastDeadline(cfg, turns[0])
    requires turns[0].popped.Some? && turns[0].popped.value.hdr.sessionId == c
    ensures var (b, e) := FrameStep(cfg.chunker, a, turns[0].popped.value, turns[0].dequeueNs);
      var (z, rest) := Lone(cfg.chunker, b, Own(cfg, turns[1..], c), c);
      Lone(cfg.chunker, a, Own(cfg, turns, c), c) == (z, EventFor(e, c) + rest)
  {
    assert Own(cfg, turns, c)[1..] == Own(cfg, turns[1..], c);
  }

  // ------------------------------------------------------ from a fresh table

  /** No sweep of the run closes anything. */
  ghost predicate NoExpiry(cfg: LoopConfig, p: Progress, turns: seq<Turn>)
    requires Coherent(p.table)
    decreases |turns|
  {
    turns == [] || PastDeadline(cfg, turns[0]) ||
    (OneTurnCoherent(cfg, p, turns[0]);
     && (Due(p, turns[0]) ==> NoneSwept(p.table, turns[0].loopNs, Some(cfg.idleNs)))
     && NoExpiry(cfg, OneTurn(cfg, p, turns[0]), turns[1..]))
  }

  ghost predicate NoneSwept(t: TableView, nowNs: uint64, idleNs: Option<uint64>) {
    forall i :: 0 <= i < |t.sessions| ==> !Swept(t.sessions[i], nowNs, idleNs)
  }

  lemma {:induction false} IdleSweep(t: TableView, n: nat, nowNs: uint64, idleNs: Option<uint64>)
    requires n <= |t.sessions| && NoneSwept(t, nowNs, idleNs)
    ensures Sweep(t, n, nowNs, idleNs) == (t, [])
  {
    hide SweepOne, Swept;
    if n > 0 {
      IdleSweep(t, n - 1, nowNs, idleNs);
      SweepTouches(t, n - 1, nowNs, idleNs);
      assert Sweep(t, n, nowNs, idleNs).1 == [] + [];
    }
  }

  lemma IdleSweepIfDue(cfg: LoopConfig, p: Progress, turn: Turn)
    requires Due(p, turn) ==> NoneSwept(p.table, turn.loopNs, Some(cfg.idleNs))
    ensures SweepIfDue(cfg, p, turn.loopNs).table == p.table && SweepIfDue(cfg, p, turn.loopNs).emitted == p.emitted
  {
    if Due(p, turn) {
      IdleSweep(p.table, |p.table.sessions|, turn.loopNs, Some(cfg.idleNs));
      assert p.emitted + [] == p.emitted;
    }
  }

  /** Storage nobody has used yet. */
  ghost predicate FreshFree(t: TableView)
    requires Coherent(t)
  {
    forall k :: 0 <= k < |t.free| ==> t.sessions[t.free[k]].assembler == FRESH
  }

  /** Call c's assembler, or the one it would be given. */
  function Pending(t: TableView, c: uint32): AssemblerState
    requires Coherent(t)
  {
    if c in t.dir then t.sessions[t.dir[c]].assembler else FRESH
  }

  /** Without expiry the free list only shrinks, and a call that found it empty stays out. */
  lemma HandleKeepsFresh(cfg: LoopConfig, p: Progress, f: AudioFrame, nowNs: uint64)
    requires Coherent(p.table) && FreshFree(p.table)
    ensures Coherent(Handle(cfg, p, f, nowNs).table) && FreshFree(Handle(cfg, p, f, nowNs).table)
    ensures p.table.free == [] ==> Handle(cfg, p, f, nowNs).table.free == []
  {
    hide FrameStep;
    HandleCoherent(cfg, p, f, nowNs);
    var (t, i) := Acquire(p.table, f.hdr.sessionId, nowNs);
    if i.Some? { FreeApart(p.table, f.hdr.sessionId, nowNs); }
  }

  /** The session acquired is not on the free list left behind. */
  lemma FreeApart(t: TableView, id: uint32, nowNs: uint64)
    requires Coherent(t) && Acquire(t, id, nowNs).1.Some?
    ensures var (u, i) := Acquire(t, id, nowNs);
      && |u.free| <= |t.free| && u.free == t.free[..|u.free|]
      && forall k :: 0 <= k < |u.free| ==>
           && u.free[k] != i.value
           && u.free[k] < |u.sessions|
           && u.sessions[u.free[k]] == t.sessions[t.free[k]]
  {
  }

  lemma TurnKeepsFresh(cfg: LoopConfig, p: Progress, turn: Turn)
    requires Coherent(p.table) && FreshFree(p.table)
    requires Due(p, turn) ==> NoneSwept(p.table, turn.loopNs, Some(cfg.idleNs))
    ensures Coherent(OneTurn(cfg, p, turn).table) && FreshFree(OneTurn(cfg, p, turn).table)
    ensures p.table.free == [] ==> OneTurn(cfg, p, turn).table.free == []
  {
    hide Handle, FreshFree, Coherent;
    IdleSweepIfDue(cfg, p, turn);
    if turn.popped.Some? {
      HandleKeepsFresh(cfg, SweepIfDue(cfg, p, turn.loopNs), turn.popped.value, turn.dequeueNs);
    }
  }

  lemma {:induction false} NoExpirySpares(cfg: LoopConfig, p: Progress, turns: seq<Turn>, c: uint32)
    requires Coherent(p.table) && c in p.table.dir && NoExpiry(cfg, p, turns)
    ensures Spared(cfg, p, turns, c)
    decreases |turns|
  {
    hide OneTurn, FrameStep, Tagged, Partitions;
    if turns != [] && !PastDeadline(cfg, turns[0]) {
      TurnOfLiveCall(cfg, p, turns[0], c);
      OneTurnCoherent(cfg, p, turns[0]);
      NoExpirySpares(cfg, OneTurn(cfg, p, turns[0]), turns[1..], c);
    }
  }

  /** One turn of a call that is not live: it stays silent, and becomes live only by its own frame being admitted. */
  lemma TurnOfAbsentCall(cfg: LoopConfig, p: Progress, turn: Turn, c: uint32)
    requires Coherent(p.table) && FreshFree(p.table) && c !in p.table.dir
    requires Due(p, turn) ==> NoneSwept(p.table, turn.loopNs, Some(cfg.idleNs))
    ensures Coherent(OneTurn(cfg, p, turn).table)
    ensures var q := OneTurn(cfg, p, turn);
      var mine := turn.popped.Some? && turn.popped.value.hdr.sessionId == c;
      && (c in q.table.dir <==> mine && p.table.free != [])
      && (c in q.table.dir ==>
           var (a, e) := FrameStep(cfg.chunker, FRESH, turn.popped.value, turn.dequeueNs);
           && Pending(q.table, c) == a
           && Tagged(q.emitted, c) == Tagged(p.emitted, c) + EventFor(e, c))
      && (c !in q.table.dir ==> Tagged(q.emitted, c) == Tagged(p.emitted, c))
  {
    hide Handle, FrameStep, EventFor, Tagged, Partitions, Swept;
    OneTurnCoherent(cfg, p, turn);
    IdleSweepIfDue(cfg, p, turn);
    var q := SweepIfDue(cfg, p, turn.loopNs);
    if turn.popped.Some? {
      if turn.popped.value.hdr.sessionId == c {
        FirstFrame(cfg, q, turn.popped.value, turn.dequeueNs);
      } else {
        OthersFrame(cfg, q, turn.popped.value, turn.dequeueNs, c);
      }
    }
  }

  /** The assembler the next call to open will be given: whatever its storage was left with. */
  function NextAssembler(t: TableView): AssemblerState
    requires Coherent(t) && t.free != []
  {
    t.sessions[t.free[|t.free| - 1]].assembler
  }

  /** The first frame of a call goes to the assembler found on the storage it is given. */
  lemma FirstFrame(cfg: LoopConfig, p: Progress, f: AudioFrame, nowNs: uint64)
    requires Coherent(p.table) && f.hdr.sessionId !in p.table.dir
    ensures var c, q := f.hdr.sessionId, Handle(cfg, p, f, nowNs);
      && (c in q.table.dir <==> p.table.free != [])
      && (c in q.table.dir ==>
           var (a, e) := FrameStep(cfg.chunker, NextAssembler(p.table), f, nowNs);
           && q.table.dir[c] < |q.table.sessions| && q.table.sessions[q.table.dir[c]].assembler == a
           && Tagged(q.emitted, c) == Tagged(p.emitted, c) + EventFor(e, c))
      && (c !in q.table.dir ==> Tagged(q.emitted, c) == Tagged(p.emitted, c))
  {
    hide FrameStep;
    var c := f.hdr.sessionId;
    var (t, i) := Acquire(p.table, c, nowNs);
    if i.Some? {
      FreeLeavesRoom(p.table);
      OpeningKeepsTheAssembler(p.table, c, nowNs);
      var events := Fed(cfg.chunker, t.sessions[i.value], f, nowNs).2;
      TaggedConcat(p.emitted, events, c);
      TaggedOne(events, c);
    }
  }

  /** With no expiry, a call found the table full once is never admitted. */
  lemma {:induction false} RefusedForGood(cfg: LoopConfig, p: Progress, turns: seq<Turn>, c: uint32)
    requires Coherent(p.table) && FreshFree(p.table) && NoExpiry(cfg, p, turns)
    requires c !in p.table.dir && p.table.free == []
    ensures c !in Run(cfg, p, turns).table.dir
    ensures Tagged(Run(cfg, p, turns).emitted, c) == Tagged(p.emitted, c)
    decreases |turns|
  {
    hide OneTurn, FrameStep, Tagged, Partitions, FreshFree, Pending;
    if turns != [] && !PastDeadline(cfg, turns[0]) {
      TurnOfAbsentCall(cfg, p, turns[0], c);
      TurnKeepsFresh(cfg, p, turns[0]);
      RefusedForGood(cfg, OneTurn(cfg, p, turns[0]), turns[1..], c);
    }
  }

  /** Between p and q, call c heard its own frames alone, or nothing at all. */
  ghost predicate Alone(cfg: LoopConfig, p: Progress, q: Progress, turns: seq<Turn>, c: uint32)
    requires Coherent(p.table)
  {
    var (a, events) := Lone(cfg.chunker, Pending(p.table, c), Own(cfg, turns, c), c);
    if c in q.table.dir then
      && q.table.dir[c] < |q.table.sessions| && q.table.sessions[q.table.dir[c]].assembler == a
      && Tagged(q.emitted, c) == Tagged(p.emitted, c) + events
    else Tagged(q.emitted, c) == Tagged(p.emitted, c)
  }

  lemma AdmittedCallIsAlone(cfg: LoopConfig, p: Progress, turns: seq<Turn>, c: uint32)
    requires Coherent(p.table) && FreshFree(p.table) && NoExpiry(cfg, p, turns)
    requires turns != [] && !PastDeadline(cfg, turns[0]) && c !in p.table.dir && p.table.free != []
    requires turns[0].popped.Some? && turns[0].popped.value.hdr.sessionId == c
    ensures Alone(cfg, p, Run(cfg, p, turns), turns, c)
  {
    hide OneTurn, FrameStep, Tagged, Partitions, FreshFree, EventFor, Lone, Own, Injective, Tied;
    var q := OneTurn(cfg, p, turns[0]);
    TurnOfAbsentCall(cfg, p, turns[0], c);
    NoExpirySpares(cfg, q, turns[1..], c);
    LiveCallIsAlone(cfg, q, turns[1..], c);
    LoneStep(cfg, FRESH, turns, c);
  }

  /** From a state with only unused storage free, every call hears its own frames alone, or nothing at all. */
  lemma {:induction false} EveryCallIsAlone(cfg: LoopConfig, p: Progress, turns: seq<Turn>, c: uint32)
    requires Coherent(p.table) && FreshFree(p.table) && NoExpiry(cfg, p, turns)
    ensures Alone(cfg, p, Run(cfg, p, turns), turns, c)
    decreases |turns|
  {
    hide OneTurn, FrameStep, Tagged, Partitions, FreshFree;
    if c in p.table.dir {
      NoExpirySpares(cfg, p, turns, c);
      LiveCallIsAlone(cfg, p, turns, c);
    } else if turns != [] && !PastDeadline(cfg, turns[0]) {
      if turns[0].popped.Some? && turns[0].popped.value.hdr.sessionId == c {
        if p.table.free == [] {
          RefusedForGood(cfg, p, turns, c);
        } else {
          AdmittedCallIsAlone(cfg, p, turns, c);
        }
      } else {
        TurnOfAbsentCall(cfg, p, turns[0], c);
        TurnKeepsFresh(cfg, p, turns[0]);
        EveryCallIsAlone(cfg, OneTurn(cfg, p, turns[0]), turns[1..], c);
        assert Own(cfg, turns, c) == Own(cfg, turns[1..], c);
      }
    }
  }

  function Begin(max: nat, firstSweepNs: uint64): Progress {
    Progress(NewTable(max), firstSweepNs, 0, 0, 0, [])
  }

  /** A whole run, start to final flush, in which no session expires: the events of every call that was admitted are
      those of an assembler of its own, fed its own frames and flushed at the end; a call never admitted has none. */
  lemma Demultiplexed(cfg: LoopConfig, max: nat, firstSweepNs: uint64, turns: seq<Turn>, endNs: uint64, c: uint32)
    requires NoExpiry(cfg, Begin(max, firstSweepNs), turns)
    ensures var q := Run(cfg, Begin(max, firstSweepNs), turns);
      var (a, events) := Lone(cfg.chunker, FRESH, Own(cfg, turns, c), c);
      Tagged(Finish(q, endNs).emitted, c) ==
        if c in q.table.dir then events + EventFor(FlushStep(a, endNs).1, c) else []
  {
    hide FrameStep, Tagged, Lone, Run, Own, Coherent, NoExpiry, Finish;
    var p := Begin(max, firstSweepNs);
    StartsFresh(max, firstSweepNs);
    EveryCallIsAlone(cfg, p, turns, c);
    var q := Run(cfg, p, turns);
    RunCoherent(cfg, p, turns);
    assert Tagged([], c) == [] by { TaggedOne([], c); }
    FinalFlush(q, endNs, c);
  }

  lemma StartsFresh(max: nat, firstSweepNs: uint64)
    ensures FreshFree(NewTable(max))
  {
  }

  lemma {:induction false} RunCoherent(cfg: LoopConfig, p: Progress, turns: seq<Turn>)
    requires Coherent(p.table)
    ensures Coherent(Run(cfg, p, turns).table)
    decreases |turns|
  {
    hide Coherent, OneTurn;
    if turns != [] && !PastDeadline(cfg, turns[0]) {
      OneTurnCoherent(cfg, p, turns[0]);
      RunCoherent(cfg, OneTurn(cfg, p, turns[0]), turns[1..]);
    }
  }

  /** The closing sweep says of call c what flushing its assembler says. */
  lemma FinalFlush(p: Progress, endNs: uint64, c: uint32)
    requires Coherent(p.table)
    ensures Tagged(Finish(p, endNs).emitted, c) == Tagged(p.emitted, c) +
      if c in p.table.dir then EventFor(FlushStep(p.table.sessions[p.table.dir[c]].assembler, endNs).1, c) else []
  {
    hide Partitions, Tails, Sweep;
    var t, n := p.table, |p.table.sessions|;
    SweepTouchesExactly(t, n, endNs, None);
    TaggedConcat(p.emitted, Tails(t.sessions, n, endNs, None), c);
    forall i | 0 <= i < n && Swept(t.sessions[i], endNs, None)
      ensures t.sessions[i].id == c <==> c in t.dir && t.dir[c] == i
    {
      LiveSession(t, i, c);
    }
    if c in t.dir {
      TailsOfOne(t.sessions, n, t.dir[c], endNs, c);
    } else {
      TailsOfOthers(t.sessions, n, endNs, None, c);
    }
  }

  /** What a closing sweep says of one session. */
  lemma TailIsFlush(s: SessionVal, endNs: uint64)
    ensures Tail(s, endNs, None) == if s.active then EventFor(FlushStep(s.assembler, endNs).1, s.id) else []
    ensures |Tail(s, endNs, None)| <= 1
    ensures Tail(s, endNs, None) != [] ==> Tail(s, endNs, None)[0].sessionId == s.id
  {
  }

  lemma {:induction false} TailsOfOne(s: seq<SessionVal>, n: nat, k: nat, endNs: uint64, c: uint32)
    requires n <= |s| && k < |s| && s[k].active && s[k].id == c
    requires forall i :: 0 <= i < |s| && Swept(s[i], endNs, None) && i != k ==> s[i].id != c
    ensures Tagged(Tails(s, n, endNs, None), c) == if k < n then EventFor(FlushStep(s[k].assembler, endNs).1, c) else []
  {
    hide Tail, FlushStep, Tagged;
    if n == 0 {
      TaggedOne([], c);
    } else {
      TailsOfOne(s, n - 1, k, endNs, c);
      TailIsFlush(s[n - 1], endNs);
      TaggedConcat(Tails(s, n - 1, endNs, None), Tail(s[n - 1], endNs, None), c);
      TaggedOne(Tail(s[n - 1], endNs, None), c);
    }
  }
}
