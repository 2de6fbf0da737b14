// What the time stamps of sessions mean: a session remembers when its call was
// last heard from, and a sweep closes exactly the calls not heard from for long
// enough, four times a second.

module Stamps {
  import opened Words
  import opened Audio
  import opened Chunker
  import opened SessionIndex
  import opened SessionView
  import opened SessionRuns
  import opened HotLoop
  import opened Demux
  import opened Reuse

  /** Call c is live and was last heard from at time `at`. */
  ghost predicate HeardAt(t: TableView, c: uint32, at: uint64)
    requires Coherent(t)
  {
    c in t.dir && t.sessions[t.dir[c]].lastFrameNs == at
  }

  lemma HandleStamps(cfg: LoopConfig, p: Progress, f: AudioFrame, nowNs: uint64)
    requires Coherent(p.table)
    ensures var c, q := f.hdr.sessionId, Handle(cfg, p, f, nowNs);
      && Coherent(q.table)
      && (c in q.table.dir ==> HeardAt(q.table, c, nowNs) && q.table.sessions[q.table.dir[c]].prevFrameNs == nowNs)
  {
    HandleCoherent(cfg, p, f, nowNs);
    hide FrameStep, Partitions;
  }

  /** The session a call's frame is fed to: its own, or the next free one made over. */
  function SessionFor(t: TableView, c: uint32, nowNs: uint64): SessionVal
    requires Coherent(t) && (c in t.dir || t.free != [])
  {
    if c in t.dir then t.sessions[t.dir[c]].(lastFrameNs := nowNs)
    else Opened(t.sessions[t.free[|t.free| - 1]], c, nowNs)
  }

  lemma HandleFeeds(cfg: LoopConfig, p: Progress, f: AudioFrame, nowNs: uint64)
    requires Coherent(p.table) && (f.hdr.sessionId in p.table.dir || p.table.free != [])
    ensures var c, q := f.hdr.sessionId, Handle(cfg, p, f, nowNs);
      && c in q.table.dir && q.table.dir[c] < |q.table.sessions|
      && q.table.sessions[q.table.dir[c]] == Fed(cfg.chunker, SessionFor(p.table, c, nowNs), f, nowNs).0
  {
    hide Fed, Opened;
  }

  lemma FedLoudStamp(cfg: ChunkerConfig, s: SessionVal, f: AudioFrame, nowNs: uint64)
    requires s.assembler.gate.quietFrames < TWO_32 - 1
    ensures var u := Fed(cfg, s, f, nowNs).0;
      u.lastLoudProduceNs ==
        if u.assembler.gate.speaking && LoudFrame(cfg, f) then f.hdr.tProduceNs else s.lastLoudProduceNs
  {
    QuietIsCounted(cfg, s.assembler, f, nowNs);
    hide FrameStep, LoudFrame;
  }

  /** The stamp a session keeps of speech: its call's last loud frame that left the gate speaking. */
  lemma HandleLoudStamp(cfg: LoopConfig, p: Progress, f: AudioFrame, nowNs: uint64)
    requires Coherent(p.table) && (f.hdr.sessionId in p.table.dir || p.table.free != [])
    requires SessionFor(p.table, f.hdr.sessionId, nowNs).assembler.gate.quietFrames < TWO_32 - 1
    ensures var c, t, q := f.hdr.sessionId, p.table, Handle(cfg, p, f, nowNs);
      && c in q.table.dir && q.table.dir[c] < |q.table.sessions|
      && var s := q.table.sessions[q.table.dir[c]];
      s.lastLoudProduceNs ==
        if s.assembler.gate.speaking && LoudFrame(cfg.chunker, f) then f.hdr.tProduceNs
        else if c in t.dir then t.sessions[t.dir[c]].lastLoudProduceNs else 0
  {
    hide Fed, Handle, Partitions, LoudFrame;
    HandleFeeds(cfg, p, f, nowNs);
    FedLoudStamp(cfg.chunker, SessionFor(p.table, f.hdr.sessionId, nowNs), f, nowNs);
  }

  lemma QuietIsCounted(cfg: ChunkerConfig, a: AssemblerState, f: AudioFrame, nowNs: uint64)
    requires a.gate.quietFrames < TWO_32 - 1
    ensures var g := FrameStep(cfg, a, f, nowNs).0.gate;
      g.speaking ==> (g.quietFrames == 0 <==> LoudFrame(cfg, f))
  {
    GateOf(cfg, a, f, nowNs);
    hide FrameStep;
  }

  /** One turn: a call's own frame stamps its session, and nothing else does. */
  lemma TurnStamps(cfg: LoopConfig, p: Progress, turn: Turn, c: uint32)
    requires Coherent(p.table)
    ensures var q := OneTurn(cfg, p, turn);
      && Coherent(q.table)
      && (c in q.table.dir ==>
           if turn.popped.Some? && turn.popped.value.hdr.sessionId == c then HeardAt(q.table, c, turn.dequeueNs)
           else c in p.table.dir && HeardAt(q.table, c, p.table.sessions[p.table.dir[c]].lastFrameNs))
  {
    hide SweepIfDue, Handle, Partitions, Injective, ActiveIfLive, Tagged;
    SweepClosesOrSpares(cfg, p, turn.loopNs, c);
    SweepIfDueCoherent(cfg, p, turn.loopNs);
    OneTurnCoherent(cfg, p, turn);
    var s := SweepIfDue(cfg, p, turn.loopNs);
    if turn.popped.Some? {
      if turn.popped.value.hdr.sessionId == c {
        HandleStamps(cfg, s, turn.popped.value, turn.dequeueNs);
      } else {
        OthersFrame(cfg, s, turn.popped.value, turn.dequeueNs, c);
      }
    }
  }

  /** Over any run, whatever is refused and whatever expires: a live call was last heard from when the last of its own
      frames was dequeued. */
  lemma {:induction false} StampIsLastOwnFrame(cfg: LoopConfig, p: Progress, turns: seq<Turn>, c: uint32)
    requires Coherent(p.table)
    ensures var q, own := Run(cfg, p, turns), Own(cfg, turns, c);
      && Coherent(q.table)
      && (c in q.table.dir ==>
           if own != [] then HeardAt(q.table, c, own[|own| - 1].1)
           else c in p.table.dir && HeardAt(q.table, c, p.table.sessions[p.table.dir[c]].lastFrameNs))
    decreases |turns|
  {
    hide OneTurn, Partitions, Injective, ActiveIfLive;
    if turns != [] && !PastDeadline(cfg, turns[0]) {
      OneTurnCoherent(cfg, p, turns[0]);
      TurnStamps(cfg, p, turns[0], c);
      StampIsLastOwnFrame(cfg, OneTurn(cfg, p, turns[0]), turns[1..], c);
    }
  }

  // ------------------------------------------------------ when a sweep closes a call

  lemma SweepClosesWhenOld(cfg: LoopConfig, p: Progress, loopNs: uint64, c: uint32, at: uint64)
    requires Coherent(p.table) && HeardAt(p.table, c, at)
    ensures c !in SweepIfDue(cfg, p, loopNs).table.dir <==> loopNs >= p.nextSweepNs && Sub64(loopNs, at) >= cfg.idleNs
  {
    hide Partitions, Sweep, Injective;
    if loopNs >= p.nextSweepNs {
      SweepClosesExactly(p.table, |p.table.sessions|, loopNs, Some(cfg.idleNs));
    }
  }

  /** After any run from a fresh table: the next turn closes a live call exactly when a sweep is due and the last of the
      call's own frames is at least the idle limit old. */
  lemma ClosedExactlyWhenIdle(cfg: LoopConfig, max: nat, firstSweepNs: uint64, turns: seq<Turn>, loopNs: uint64,
                              c: uint32)
    requires c in Run(cfg, Begin(max, firstSweepNs), turns).table.dir
    ensures var q, own := Run(cfg, Begin(max, firstSweepNs), turns), Own(cfg, turns, c);
      && own != []
      && (c !in SweepIfDue(cfg, q, loopNs).table.dir <==>
           loopNs >= q.nextSweepNs && Sub64(loopNs, own[|own| - 1].1) >= cfg.idleNs)
  {
    hide Run, Own, SweepIfDue;
    StampIsLastOwnFrame(cfg, Begin(max, firstSweepNs), turns, c);
    var own := Own(cfg, turns, c);
    SweepClosesWhenOld(cfg, Run(cfg, Begin(max, firstSweepNs), turns), loopNs, c, own[|own| - 1].1);
  }

  /** When the next sweep is due: at the first one, until a turn reaches it, and then a quarter of a second after the
      last turn that swept. */
  lemma {:induction false} NextSweepIsDue(cfg: LoopConfig, p: Progress, turns: seq<Turn>) returns (swept: bool, j: nat)
    requires Coherent(p.table)
    requires forall i :: 0 <= i < |turns| ==> !PastDeadline(cfg, turns[i])
    ensures var q := Run(cfg, p, turns);
      if swept then
        && j < |turns| && q.nextSweepNs == (turns[j].loopNs + 250_000_000) % TWO_64
        && forall i :: j < i < |turns| ==> turns[i].loopNs < q.nextSweepNs
      else
        q.nextSweepNs == p.nextSweepNs && forall i :: 0 <= i < |turns| ==> turns[i].loopNs < p.nextSweepNs
    decreases |turns|
  {
    hide Handle, Coherent;
    swept, j := false, 0;
    if turns != [] {
      OneTurnCoherent(cfg, p, turns[0]);
      var q := OneTurn(cfg, p, turns[0]);
      SweepIfDueCoherent(cfg, p, turns[0].loopNs);
      if turns[0].popped.Some? {
        HandleKeepsSweep(cfg, SweepIfDue(cfg, p, turns[0].loopNs), turns[0].popped.value, turns[0].dequeueNs);
      }
      assert forall i :: 0 <= i < |turns| - 1 ==> turns[1..][i] == turns[i + 1];
      assert forall i :: 1 <= i < |turns| ==> turns[i] == turns[1..][i - 1];
      swept, j := NextSweepIsDue(cfg, q, turns[1..]);
      if swept {
        j := j + 1;
      } else if turns[0].loopNs >= p.nextSweepNs {
        swept, j := true, 0;
      }
    }
  }

  /** After the closing flush no call is live. */
  lemma FinishClosesAll(p: Progress, endNs: uint64)
    requires Coherent(p.table)
    ensures Finish(p, endNs).table.dir == map[]
  {
    hide Partitions, Sweep, Injective;
    var t := p.table;
    SweepClosesExactly(t, |t.sessions|, endNs, None);
    forall c | c in t.dir ensures t.sessions[t.dir[c]].active { assert t.dir[c] in t.dir.Values; }
  }

  // ------------------------------------------------------ how many calls were live

  /** Over any run of calls on the table: its peak is the most that were ever live at once. */
  lemma {:induction false} PeakIsMostLive(max: nat, calls: seq<Call>, t: TableView) returns (k: nat, s: TableView)
    requires Reached(max, calls, t)
    ensures k <= |calls| && Reached(max, calls[..k], s) && |s.dir| == t.peak
    ensures |t.dir| <= t.peak
    ensures forall j: nat, u: TableView :: j <= |calls| && Reached(max, calls[..j], u) ==> |u.dir| <= t.peak
    decreases |calls|
  {
    hide Step, Coherent, Reached;
    EveryRunCoherent(max, calls, t);
    AtMostPeak(t);
    var n := |calls|;
    assert calls[..n] == calls;
    if n == 0 {
      k, s := 0, t;
      NobodyYet(max, t);
    } else {
      var r := BeforeLast(max, calls, t);
      k, s := PeakIsMostLive(max, calls[..n - 1], r);
      PeakStep(r, calls[n - 1]);
      assert calls[..n - 1][..k] == calls[..k];
      if t.peak != r.peak { k, s := n, t; }
    }
    forall j: nat, u: TableView | j <= n && Reached(max, calls[..j], u) ensures |u.dir| <= t.peak {
      if j == n {
        OneEnd(max, calls, t, u);
      } else {
        assert calls[..n - 1][..j] == calls[..j];
      }
    }
  }

  lemma NobodyYet(max: nat, t: TableView)
    requires Reached(max, [], t)
    ensures t.dir == map[] && t.peak == 0
  {
  }

  lemma BeforeLast(max: nat, calls: seq<Call>, t: TableView) returns (r: TableView)
    requires Reached(max, calls, t) && calls != []
    ensures Reached(max, calls[..|calls| - 1], r) && Coherent(r) && t == SessionRuns.Step(r, calls[|calls| - 1])
  {
    hide Step, Coherent;
    r :| Reached(max, calls[..|calls| - 1], r) && Coherent(r) && t == Step(r, calls[|calls| - 1]);
  }

  lemma AtMostPeak(t: TableView)
    requires Coherent(t)
    ensures |t.dir| <= t.peak
  {
  }

  /** A call moves the peak only to the number of calls live after it. */
  lemma PeakStep(t: TableView, c: Call)
    requires Coherent(t)
    ensures var u := SessionRuns.Step(t, c);
      t.peak <= u.peak && (u.peak == t.peak || u.peak == |u.dir|)
  {
    hide Sweep, Partitions, Tied;
    FreeInRange(t);
    if c.AcquireCall? && c.id !in t.dir && t.free != [] {
      ValuesAfterOpen(t.dir, c.id, t.free[|t.free| - 1]);
    }
  }

  /** A run of calls leads to one table. */
  lemma {:induction false} OneEnd(max: nat, calls: seq<Call>, t: TableView, u: TableView)
    requires Reached(max, calls, t) && Reached(max, calls, u)
    ensures t == u
    decreases |calls|
  {
    hide Step, Coherent;
    if calls != [] {
      var n := |calls| - 1;
      var r: TableView :| Reached(max, calls[..n], r) && Coherent(r) && t == Step(r, calls[n]);
      var s: TableView :| Reached(max, calls[..n], s) && Coherent(s) && u == Step(s, calls[n]);
      OneEnd(max, calls[..n], r, s);
    }
  }
}
