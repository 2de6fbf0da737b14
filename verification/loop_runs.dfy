// The hot loop as a caller of the table: every table it can bring about is
// reached by acquires, sweeps and uses of the sessions acquired.

module LoopRuns {
  import opened Words
  import opened Audio
  import opened Chunker
  import opened Coverage
  import opened SessionView
  import opened SessionRuns
  import opened HotLoop

  lemma OneCallMore(max: nat, calls: seq<Call>, t: TableView, c: Call)
    requires Reached(max, calls, t)
    ensures Coherent(t) && Reached(max, calls + [c], Step(t, c))
  {
    hide Coherent, Step;
    EveryRunCoherent(max, calls, t);
    assert (calls + [c])[..|calls|] == calls;
  }

  /** A frame is an acquire and, unless refused, a use of the session acquired. */
  lemma HandleIsCalls(cfg: LoopConfig, max: nat, calls: seq<Call>, p: Progress, f: AudioFrame, nowNs: uint64)
    returns (more: seq<Call>)
    requires Reached(max, calls, p.table) && Coherent(p.table)
    ensures Reached(max, more, Handle(cfg, p, f, nowNs).table)
  {
    hide Reached, Coherent, FrameStep;
    var acquired := AcquireCall(f.hdr.sessionId, nowNs);
    OneCallMore(max, calls, p.table, acquired);
    more := calls + [acquired];
    FreeInRange(p.table);
    var (t, i) := Acquire(p.table, f.hdr.sessionId, nowNs);
    if i.Some? {
      var fed := Fed(cfg.chunker, t.sessions[i.value], f, nowNs).0;
      FedKeepsIdentity(cfg.chunker, t.sessions[i.value], f, nowNs);
      OneCallMore(max, more, t, Use(i.value, fed));
      more := more + [Use(i.value, fed)];
    }
  }

  lemma TurnIsCalls(cfg: LoopConfig, max: nat, calls: seq<Call>, p: Progress, turn: Turn)
    returns (more: seq<Call>)
    requires Reached(max, calls, p.table) && Coherent(p.table)
    ensures Reached(max, more, OneTurn(cfg, p, turn).table)
  {
    hide Reached, Coherent, Handle, Sweep;
    SweepIfDueCoherent(cfg, p, turn.loopNs);
    more := calls;
    if turn.loopNs >= p.nextSweepNs {
      OneCallMore(max, calls, p.table, ExpireIdle(turn.loopNs, cfg.idleNs));
      more := more + [ExpireIdle(turn.loopNs, cfg.idleNs)];
    }
    if turn.popped.Some? {
      more := HandleIsCalls(cfg, max, more, SweepIfDue(cfg, p, turn.loopNs), turn.popped.value, turn.dequeueNs);
    }
  }

  /** Whatever the loop is fed, its table is one that a run of calls reaches. */
  lemma {:induction false} LoopTableIsReached(cfg: LoopConfig, max: nat, calls: seq<Call>, p: Progress,
                                              turns: seq<Turn>)
    returns (more: seq<Call>)
    requires Reached(max, calls, p.table) && Coherent(p.table)
    ensures Reached(max, more, Run(cfg, p, turns).table)
    decreases |turns|
  {
    hide Reached, Coherent, OneTurn;
    more := calls;
    if turns != [] && !PastDeadline(cfg, turns[0]) {
      OneTurnCoherent(cfg, p, turns[0]);
      more := TurnIsCalls(cfg, max, calls, p, turns[0]);
      more := LoopTableIsReached(cfg, max, more, OneTurn(cfg, p, turns[0]), turns[1..]);
    }
  }

  // ------------------------------------------------------ a run whose sweep speaks

  lemma {:induction false} TailOfFirst(s: seq<SessionVal>, n: nat, nowNs: uint64, idleNs: Option<uint64>)
    requires 0 < n <= |s| && forall i :: 1 <= i < n ==> !s[i].active
    ensures Tails(s, n, nowNs, idleNs) == Tail(s[0], nowNs, idleNs)
  {
    if n > 1 { TailOfFirst(s, n - 1, nowNs, idleNs); } else { assert Tails(s, 0, nowNs, idleNs) == []; }
  }

  /** After a call's first loud frame, a sweep that closes the call emits the chunk that frame opened. */
  lemma FlushEmitsTheOpenChunk(cfg: ChunkerConfig, max: nat, f: AudioFrame, nowNs: uint64, endNs: uint64)
    returns (calls: seq<Call>, t: TableView)
    requires 0 < max && Eager(cfg, f)
    ensures Reached(max, calls, t) && Coherent(t) && |t.sessions| == max
    ensures var events := Sweep(t, max, endNs, None).1;
      && |events| == 1 && events[0].sessionId == f.hdr.sessionId && events[0].reason == StreamEnd
      && events[0].frameCount == 1 && events[0].firstSeq == f.hdr.seqNo
  {
    hide Reached, Coherent, FrameStep, Sweep;
    var start := NewTable(max);
    assert Reached(max, [], start) by { NothingCalled(max); }
    OneCallMore(max, [], start, AcquireCall(f.hdr.sessionId, nowNs));
    FreeInRange(start);
    var o := Acquire(start, f.hdr.sessionId, nowNs).0;
    var fed := Fed(cfg, o.sessions[0], f, nowNs).0;
    LoudFrameOpens(cfg, f, nowNs);
    calls := [] + [AcquireCall(f.hdr.sessionId, nowNs)];
    OneCallMore(max, calls, o, Use(0, fed));
    calls, t := calls + [Use(0, fed)], Step(o, Use(0, fed));
    EveryRunCoherent(max, calls, t);
    SweepTouchesExactly(t, max, endNs, None);
    TailOfFirst(t.sessions, max, endNs, None);
  }

  lemma NothingCalled(max: nat)
    ensures Reached(max, [], NewTable(max))
  {
  }
}
