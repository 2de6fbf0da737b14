// The hot loop as the pinned thread runs it, over the session objects, against
// its description on values.

module HotPath {
  import opened Words
  import opened Audio
  import opened Chunker
  import opened SessionIndex
  import opened SessionView
  import opened Sessions
  import opened HotLoop

  /** What the loop does to the session a frame belongs to. */
  method Feed(cfg: ChunkerConfig, session: Session, frame: AudioFrame, nowNs: uint64)
    returns (gap: nat, events: seq<ChunkEvent>)
    requires session.assembler.Valid() && session.assembler.cfg == cfg
    modifies session.Repr()
    ensures (session.Val(), gap, events) == Fed(cfg, old(session.Val()), frame, nowNs)
  {
    hide FrameStep;
    session.prevFrameNs := nowNs;
    gap := 0;
    if session.haveLastSeq && frame.hdr.seqNo > Inc64(session.lastSeq) {
      gap := Sub64(Sub64(frame.hdr.seqNo, session.lastSeq), 1);
    }
    session.lastSeq := frame.hdr.seqNo;
    session.haveLastSeq := true;
    session.frames := session.frames + 1;
    var event := session.assembler.OnFrame(frame, nowNs);
    var gate := session.assembler.gate;
    if gate.speaking && gate.quietFrames == 0 {
      session.lastLoudProduceNs := frame.hdr.tProduceNs;
    }
    events := if event.Some? then [event.value.(sessionId := session.id)] else [];
  }

  /** Feeding a live session, as a change to the table. */
  method FeedSession(cfg: ChunkerConfig, table: SessionTable, session: Session, ghost k: nat, frame: AudioFrame,
                     nowNs: uint64)
    returns (gap: nat, events: seq<ChunkEvent>)
    requires table.Valid() && table.cfg == cfg && k < table.maxSessions && session == table.sessions[k]
    modifies AllRepr(table.sessions)
    ensures table.Valid()
    ensures var t := old(table.View());
      var (s, g, e) := Fed(cfg, t.sessions[k], frame, nowNs);
      table.View() == t.(sessions := t.sessions[k := s]) && gap == g && events == e
  {
    hide Fed, Indexes, Coherent, Apart, AllBuilt, SessionTable.Valid, SessionTable.Kept;
    table.ValidMeans();
    table.KeptMeans();
    table.StorageApart(k);
    FedKeepsIdentity(cfg, table.sessions[k].Val(), frame, nowNs);
    BuiltFor(table, k);
    gap, events := Feed(cfg, session, frame, nowNs);
    table.SessionFed(k);
  }

  lemma BuiltFor(table: SessionTable, k: nat)
    requires table.Laid() && k < table.maxSessions
    ensures table.sessions[k].assembler.cfg == table.cfg
  {
  }

  /** The body of the loop after a successful pop. */
  method HandleFrame(cfg: LoopConfig, table: SessionTable, frame: AudioFrame, nowNs: uint64, ghost p: Progress)
    returns (handled: bool, gap: nat, events: seq<ChunkEvent>)
    requires table.Valid() && table.cfg == cfg.chunker && Coherent(p.table) && p.table == table.View()
    modifies table, table.slots, AllRepr(table.sessions)
    ensures table.Valid()
    ensures var q := Handle(cfg, p, frame, nowNs);
      && table.View() == q.table && p.emitted + events == q.emitted && p.seqGaps + gap == q.seqGaps
      && q.frames == p.frames + (if handled then 1 else 0) && q.refused == p.refused + (if handled then 0 else 1)
  {
    hide Fed, Indexes, Coherent, Apart, AllBuilt, SessionTable.Valid, SessionTable.Kept, AllRepr;
    table.ValidMeans();
    table.KeptMeans();
    FreeInRange(p.table);
    table.SessionsWithin();
    var session, index := table.Acquire(frame.hdr.sessionId, nowNs);
    if session == null {
      assert p.emitted + [] == p.emitted;
      return false, 0, [];
    }
    table.ValidMeans();
    table.KeptMeans();
    gap, events := FeedSession(cfg.chunker, table, session, index.value, frame, nowNs);
    handled := true;
  }

  /** One turn of the loop: the sweep if it is due, then the frame if one was popped. */
  method TakeTurn(cfg: LoopConfig, turn: Turn, table: SessionTable, nextSweepNs: uint64, ghost p: Progress)
    returns (nextSweepNs': uint64, handled: nat, refused: nat, gap: nat, events: seq<ChunkEvent>)
    requires table.Valid() && table.cfg == cfg.chunker && Coherent(p.table)
    requires p.table == table.View() && p.nextSweepNs == nextSweepNs
    modifies table, table.slots, AllRepr(table.sessions)
    ensures table.Valid()
    ensures OneTurn(cfg, p, turn) == Progress(table.View(), nextSweepNs', p.frames + handled, p.refused + refused,
                                              p.seqGaps + gap, p.emitted + events)
  {
    hide Indexes, Coherent, Apart, AllBuilt, SessionTable.Valid, SessionTable.Kept, AllRepr, Handle, Sweep;
    SweepIfDueCoherent(cfg, p, turn.loopNs);
    ghost var q := SweepIfDue(cfg, p, turn.loopNs);
    nextSweepNs', events := nextSweepNs, [];
    table.ValidMeans();
    table.KeptMeans();
    SessionCount(table);
    if turn.loopNs >= nextSweepNs {
      events := table.ExpireIdle(turn.loopNs, cfg.idleNs);
      nextSweepNs' := Add64(turn.loopNs, SWEEP_INTERVAL_NS);
    }
    assert q == Progress(table.View(), nextSweepNs', p.frames, p.refused, p.seqGaps, p.emitted + events);
    handled, refused, gap := 0, 0, 0;
    if turn.popped.Some? {
      var found, g, more := HandleFrame(cfg, table, turn.popped.value, turn.dequeueNs, q);
      HandleKeepsSweep(cfg, q, turn.popped.value, turn.dequeueNs);
      assert p.emitted + (events + more) == q.emitted + more;
      events := events + more;
      gap := g;
      if found { handled := 1; } else { refused := 1; }
    }
  }

  lemma SessionCount(table: SessionTable)
    requires table.Laid()
    ensures |table.View().sessions| == table.maxSessions
  {
  }

  /** hot_loop: the turns, up to the first past the deadline, then the closing flush. */
  method Loop(cfg: LoopConfig, turns: seq<Turn>, table: SessionTable, firstSweepNs: uint64, endNs: uint64)
    returns (frames: nat, refused: nat, seqGaps: nat, emitted: seq<ChunkEvent>)
    requires table.Valid() && table.cfg == cfg.chunker
    modifies table, table.slots, AllRepr(table.sessions)
    ensures table.Valid() && Coherent(old(table.View()))
    ensures var q := Finish(Run(cfg, Progress(old(table.View()), firstSweepNs, 0, 0, 0, []), turns), endNs);
      && table.View() == q.table && frames == q.frames && refused == q.refused
      && seqGaps == q.seqGaps && emitted == q.emitted
  {
    hide Indexes, Coherent, Apart, AllBuilt, SessionTable.Valid, SessionTable.Kept, AllRepr, OneTurn, Sweep;
    table.ValidMeans();
    table.KeptMeans();
    ghost var start := Progress(table.View(), firstSweepNs, 0, 0, 0, []);
    ghost var p := start;
    frames, refused, seqGaps, emitted := 0, 0, 0, [];
    var nextSweepNs := firstSweepNs;
    var i := 0;
    assert turns[0..] == turns;
    while i < |turns| && !PastDeadline(cfg, turns[i])
      invariant i <= |turns| && table.Valid() && Coherent(p.table)
      invariant p == Progress(table.View(), nextSweepNs, frames, refused, seqGaps, emitted)
      invariant Run(cfg, start, turns) == Run(cfg, p, turns[i..])
    {
      OneTurnCoherent(cfg, p, turns[i]);
      assert turns[i..][0] == turns[i] && turns[i..][1..] == turns[i + 1..];
      var next, h, r, gap, events := TakeTurn(cfg, turns[i], table, nextSweepNs, p);
      nextSweepNs, frames, refused, seqGaps, emitted := next, frames + h, refused + r, seqGaps + gap, emitted + events;
      p := OneTurn(cfg, p, turns[i]);
      i := i + 1;
    }
    table.ValidMeans();
    table.KeptMeans();
    SessionCount(table);
    var last := table.FlushAll(endNs);
    emitted := emitted + last;
  }
}
