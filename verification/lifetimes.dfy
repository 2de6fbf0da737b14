// The whole run's gap count, expiries and all: what each lifetime of each call
// shows, added up.

module Lifetimes {
  import opened Words
  import opened Audio
  import opened Chunker
  import opened SessionIndex
  import opened SessionView
  import opened SessionRuns
  import opened HotLoop
  import opened Demux
  import opened Loss

  /** The sequence numbers call c is fed in each of its lifetimes, `now` being those of the one it is in: a lifetime
      ends when a sweep closes the call, and the next begins with the frame that opens it again. */
  function Lives(cfg: LoopConfig, p: Progress, turns: seq<Turn>, c: uint32, now: seq<uint64>): seq<seq<uint64>>
    requires Coherent(p.table)
    decreases |turns|
  {
    if turns == [] || PastDeadline(cfg, turns[0]) then [now]
    else
      OneTurnCoherent(cfg, p, turns[0]);
      var s, q := SweepIfDue(cfg, p, turns[0].loopNs), OneTurn(cfg, p, turns[0]);
      (if c in p.table.dir && c !in s.table.dir then [now] else [])
      + Lives(cfg, q, turns[1..], c, NextLife(s, q, turns[0], c, now))
  }

  /** The lifetime call c is in after the turn. */
  function NextLife(s: Progress, q: Progress, turn: Turn, c: uint32, now: seq<uint64>): seq<uint64> {
    (if c in s.table.dir then now else [])
    + if turn.popped.Some? && turn.popped.value.hdr.sessionId == c && c in q.table.dir
      then [turn.popped.value.hdr.seqNo] else []
  }

  function SumOfGaps(lives: seq<seq<uint64>>): nat {
    if lives == [] then 0 else GapTotal(lives[0]) + SumOfGaps(lives[1..])
  }

  /** now is what the session of call c has been fed, if it is live. */
  ghost predicate InLife(t: TableView, c: uint32, now: seq<uint64>)
    requires Coherent(t)
  {
    if c in t.dir then
      now != [] && t.sessions[t.dir[c]].haveLastSeq && t.sessions[t.dir[c]].lastSeq == now[|now| - 1]
    else now == []
  }

  lemma SweepInLife(cfg: LoopConfig, p: Progress, loopNs: uint64, c: uint32, now: seq<uint64>)
    requires Coherent(p.table) && InLife(p.table, c, now)
    ensures var s := SweepIfDue(cfg, p, loopNs);
      && Coherent(s.table) && InLife(s.table, c, if c in s.table.dir then now else [])
      && s.seqGaps == p.seqGaps
  {
    hide SweepIfDue, Partitions, Injective, ActiveIfLive;
    SweepClosesOrSpares(cfg, p, loopNs, c);
    SweepIfDueCoherent(cfg, p, loopNs);
    SweepCountsNothing(cfg, p, loopNs);
  }

  lemma FrameInLife(cfg: LoopConfig, s: Progress, f: AudioFrame, nowNs: uint64, c: uint32, kept: seq<uint64>)
    requires Coherent(s.table) && InLife(s.table, c, kept)
    ensures var q := Handle(cfg, s, f, nowNs);
      var next := kept + if f.hdr.sessionId == c && c in q.table.dir then [f.hdr.seqNo] else [];
      && Coherent(q.table) && InLife(q.table, c, next)
      && GapTotal(next) == GapTotal(kept) + if f.hdr.sessionId == c then q.seqGaps - s.seqGaps else 0
  {
    hide Handle, FrameStep, Tagged, Partitions, Injective, ActiveIfLive, GapTotal;
    HandleCoherent(cfg, s, f, nowNs);
    NoGapsInNothing();
    assert kept + [] == kept;
    if f.hdr.sessionId == c {
      HandleOwn(cfg, s, f, nowNs);
      GapTotalOneMore(kept, f.hdr.seqNo);
    } else {
      OthersFrame(cfg, s, f, nowNs, c);
    }
  }

  /** What one turn counts of call c's gaps, and the lifetime it leaves the call in. */
  lemma TurnInLife(cfg: LoopConfig, p: Progress, turn: Turn, c: uint32, now: seq<uint64>)
    requires Coherent(p.table) && InLife(p.table, c, now)
    ensures var s, q := SweepIfDue(cfg, p, turn.loopNs), OneTurn(cfg, p, turn);
      var kept := if c in s.table.dir then now else [];
      var next := NextLife(s, q, turn, c, now);
      && Coherent(q.table) && InLife(q.table, c, next)
      && GapTotal(next) == GapTotal(kept) +
           if turn.popped.Some? && turn.popped.value.hdr.sessionId == c then q.seqGaps - p.seqGaps else 0
  {
    hide SweepIfDue, Handle, Coherent, InLife, GapTotal;
    SweepInLife(cfg, p, turn.loopNs, c, now);
    var s := SweepIfDue(cfg, p, turn.loopNs);
    var kept := if c in s.table.dir then now else [];
    assert kept + [] == kept;
    if turn.popped.Some? { FrameInLife(cfg, s, turn.popped.value, turn.dequeueNs, c, kept); }
  }

  lemma SumOfOneMore(first: seq<seq<uint64>>, life: seq<uint64>, lives: seq<seq<uint64>>)
    requires first == [] || first == [life]
    ensures SumOfGaps(first + lives) == (if first == [] then 0 else GapTotal(life)) + SumOfGaps(lives)
  {
    hide GapTotal;
    if first == [] { assert first + lives == lives; } else { assert (first + lives)[1..] == lives; }
  }

  /** A call's gaps are those of its lifetimes. */
  lemma {:induction false} GapsOfLives(cfg: LoopConfig, p: Progress, turns: seq<Turn>, c: uint32, now: seq<uint64>)
    requires Coherent(p.table) && InLife(p.table, c, now)
    ensures SumOfGaps(Lives(cfg, p, turns, c, now)) == GapTotal(now) + GapsFrom(cfg, p, turns, c)
    decreases |turns|
  {
    hide OneTurn, SweepIfDue, GapTotal, Coherent, InLife, SumOfGaps, NextLife;
    if turns == [] || PastDeadline(cfg, turns[0]) {
      OneLife(now);
    } else {
      var s, q := SweepIfDue(cfg, p, turns[0].loopNs), OneTurn(cfg, p, turns[0]);
      var next := NextLife(s, q, turns[0], c, now);
      TurnInLife(cfg, p, turns[0], c, now);
      GapsOfLives(cfg, q, turns[1..], c, next);
      var ended := if c in p.table.dir && c !in s.table.dir then [now] else [];
      SumOfOneMore(ended, now, Lives(cfg, q, turns[1..], c, next));
      LifeOfTheAbsent(p.table, c, now);
      SweepClosesOrSpares(cfg, p, turns[0].loopNs, c);
    }
  }

  lemma OneLife(now: seq<uint64>)
    ensures SumOfGaps([now]) == GapTotal(now)
  {
    hide GapTotal;
    assert [now][1..] == [];
  }

  lemma LifeOfTheAbsent(t: TableView, c: uint32, now: seq<uint64>)
    requires Coherent(t) && InLife(t, c, now)
    ensures c !in t.dir ==> GapTotal(now) == 0 && now == []
    ensures GapTotal([]) == 0
  {
  }

  // ------------------------------------------------------ all calls

  /** The gaps counted on the turns of calls 0..calls. */
  function SumFrom(cfg: LoopConfig, p: Progress, turns: seq<Turn>, calls: nat): int
    requires Coherent(p.table) && calls <= TWO_32
  {
    if calls == 0 then 0 else SumFrom(cfg, p, turns, calls - 1) + GapsFrom(cfg, p, turns, calls - 1)
  }

  lemma {:induction false} SumOfTurn(cfg: LoopConfig, p: Progress, turns: seq<Turn>, calls: nat)
    requires Coherent(p.table) && calls <= TWO_32 && turns != [] && !PastDeadline(cfg, turns[0])
    ensures var q := OneTurn(cfg, p, turns[0]);
      && Coherent(q.table)
      && SumFrom(cfg, p, turns, calls) == SumFrom(cfg, q, turns[1..], calls) +
           if turns[0].popped.Some? && turns[0].popped.value.hdr.sessionId < calls then q.seqGaps - p.seqGaps else 0
  {
    hide OneTurn, Coherent;
    OneTurnCoherent(cfg, p, turns[0]);
    if calls > 0 { SumOfTurn(cfg, p, turns, calls - 1); }
  }

  lemma {:induction false} SumOfNothing(cfg: LoopConfig, p: Progress, turns: seq<Turn>, calls: nat)
    requires Coherent(p.table) && calls <= TWO_32 && (turns == [] || PastDeadline(cfg, turns[0]))
    ensures SumFrom(cfg, p, turns, calls) == 0
  {
    hide Coherent;
    if calls > 0 { SumOfNothing(cfg, p, turns, calls - 1); }
  }

  lemma PopCountsAlone(cfg: LoopConfig, p: Progress, turn: Turn)
    requires Coherent(p.table) && turn.popped == None
    ensures OneTurn(cfg, p, turn).seqGaps == p.seqGaps
  {
    hide SweepIfDue;
    SweepCountsNothing(cfg, p, turn.loopNs);
  }

  /** Every gap counted is counted for one call. */
  lemma {:induction false} TotalIsSum(cfg: LoopConfig, p: Progress, turns: seq<Turn>)
    requires Coherent(p.table)
    ensures Run(cfg, p, turns).seqGaps == p.seqGaps + SumFrom(cfg, p, turns, TWO_32)
    decreases |turns|
  {
    hide OneTurn, Coherent, SumFrom;
    if turns == [] || PastDeadline(cfg, turns[0]) {
      SumOfNothing(cfg, p, turns, TWO_32);
    } else {
      var q := OneTurn(cfg, p, turns[0]);
      SumOfTurn(cfg, p, turns, TWO_32);
      TotalIsSum(cfg, q, turns[1..]);
      if turns[0].popped == None { PopCountsAlone(cfg, p, turns[0]); }
    }
  }

  /** The gaps of all lifetimes of calls 0..calls, from a fresh table. */
  function SumOverLives(cfg: LoopConfig, p: Progress, turns: seq<Turn>, calls: nat): nat
    requires Coherent(p.table) && calls <= TWO_32
  {
    if calls == 0 then 0
    else SumOverLives(cfg, p, turns, calls - 1) + SumOfGaps(Lives(cfg, p, turns, calls - 1, []))
  }

  lemma {:induction false} SumsOverLivesAgree(cfg: LoopConfig, p: Progress, turns: seq<Turn>, calls: nat)
    requires Coherent(p.table) && calls <= TWO_32 && p.table.dir == map[]
    ensures SumFrom(cfg, p, turns, calls) == SumOverLives(cfg, p, turns, calls)
  {
    hide Coherent, Lives, GapsFrom, SumOfGaps;
    if calls > 0 {
      SumsOverLivesAgree(cfg, p, turns, calls - 1);
      assert InLife(p.table, calls - 1, []);
      GapsOfLives(cfg, p, turns, calls - 1, []);
      LifeOfTheAbsent(p.table, calls - 1, []);
    }
  }

  /** Over a whole run from a fresh table, whatever is refused and whatever expires: seq_gaps is the sum, over all calls
      and all lifetimes of each, of the gaps in the numbers that lifetime was fed. */
  lemma GapsAreSumOverLifetimes(cfg: LoopConfig, max: nat, firstSweepNs: uint64, turns: seq<Turn>)
    ensures Run(cfg, Begin(max, firstSweepNs), turns).seqGaps ==
      SumOverLives(cfg, Begin(max, firstSweepNs), turns, TWO_32)
  {
    hide Run, SumFrom, SumOverLives;
    TotalIsSum(cfg, Begin(max, firstSweepNs), turns);
    SumsOverLivesAgree(cfg, Begin(max, firstSweepNs), turns, TWO_32);
  }

  /** And every frame popped was fed or refused. */
  lemma {:induction false} PoppedAreFedOrRefused(cfg: LoopConfig, p: Progress, turns: seq<Turn>)
    requires Coherent(p.table)
    ensures Run(cfg, p, turns).frames + Run(cfg, p, turns).refused == p.frames + p.refused + |Popped(cfg, turns)|
    decreases |turns|
  {
    hide OneTurn, Coherent;
    if turns != [] && !PastDeadline(cfg, turns[0]) {
      OneTurnCoherent(cfg, p, turns[0]);
      TurnFeedsOrRefuses(cfg, p, turns[0]);
      PoppedAreFedOrRefused(cfg, OneTurn(cfg, p, turns[0]), turns[1..]);
    }
  }

  lemma TurnFeedsOrRefuses(cfg: LoopConfig, p: Progress, turn: Turn)
    requires Coherent(p.table)
    ensures var q := OneTurn(cfg, p, turn);
      q.frames + q.refused == p.frames + p.refused + if turn.popped.Some? then 1 else 0
  {
    hide Coherent, Sweep, FrameStep;
    SweepIfDueCoherent(cfg, p, turn.loopNs);
  }

  // ------------------------------------------------------ the deadline

  /** The frames popped on turns read at or before the deadline; without one, on all turns. */
  function PoppedInTime(cfg: LoopConfig, turns: seq<Turn>): seq<AudioFrame> {
    if turns == [] then []
    else
      (if turns[0].popped.Some? && (cfg.deadlineNs == 0 || turns[0].loopNs <= cfg.deadlineNs)
       then [turns[0].popped.value] else [])
      + PoppedInTime(cfg, turns[1..])
  }

  lemma {:induction false} NothingLate(cfg: LoopConfig, turns: seq<Turn>)
    requires cfg.deadlineNs != 0 && forall i :: 0 <= i < |turns| ==> turns[i].loopNs > cfg.deadlineNs
    ensures PoppedInTime(cfg, turns) == []
  {
    if turns != [] { NothingLate(cfg, turns[1..]); }
  }

  /** With a clock that does not go back, the loop handles the frames popped by the deadline, all of them, no more. */
  lemma {:induction false} LoopStopsAtDeadline(cfg: LoopConfig, turns: seq<Turn>)
    requires forall i, j :: 0 <= i <= j < |turns| ==> turns[i].loopNs <= turns[j].loopNs
    ensures Popped(cfg, turns) == PoppedInTime(cfg, turns)
  {
    if turns != [] {
      if PastDeadline(cfg, turns[0]) {
        NothingLate(cfg, turns);
      } else {
        LoopStopsAtDeadline(cfg, turns[1..]);
      }
    }
  }
}
