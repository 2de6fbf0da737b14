// The hot loop: pop a frame, find its call's session, feed that session's
// assembler, and publish whatever chunk it closes.

module HotLoop {
  import opened Words
  import opened Audio
  import opened Chunker
  import opened SessionView

  const SWEEP_INTERVAL_NS: uint64 := 250_000_000

  /** One turn of the loop: the clock reading, the frame popped if there was one, and the reading after the pop. */
  datatype Turn = Turn(loopNs: uint64, popped: Option<AudioFrame>, dequeueNs: uint64)

  datatype LoopConfig = LoopConfig(chunker: ChunkerConfig, idleNs: uint64, deadlineNs: uint64)

  datatype Progress = Progress(
    table: TableView,
    nextSweepNs: uint64,
    frames: nat,
    refused: nat,
    seqGaps: nat,
    emitted: seq<ChunkEvent>)

  /** A frame reaches its session: what the session becomes, the gap it shows, and the event it closes. */
  function Fed(cfg: ChunkerConfig, s: SessionVal, f: AudioFrame, nowNs: uint64): (SessionVal, nat, seq<ChunkEvent>) {
    var gap := if s.haveLastSeq then GapAfter(s.lastSeq, f.hdr.seqNo) else 0;
    var (a, c) := FrameStep(cfg, s.assembler, f, nowNs);
    (s.(prevFrameNs := nowNs, lastSeq := f.hdr.seqNo, haveLastSeq := true, frames := s.frames + 1, assembler := a,
        lastLoudProduceNs :=
          if a.gate.speaking && a.gate.quietFrames == 0 then f.hdr.tProduceNs else s.lastLoudProduceNs),
     gap,
     if c.Some? then [c.value.event.(sessionId := s.id)] else [])
  }

  /** Feeding a session changes neither whose it is nor whether it is live. */
  lemma FedKeepsIdentity(cfg: ChunkerConfig, s: SessionVal, f: AudioFrame, nowNs: uint64)
    ensures Fed(cfg, s, f, nowNs).0.id == s.id && Fed(cfg, s, f, nowNs).0.active == s.active
  {
  }

  function SweepIfDue(cfg: LoopConfig, p: Progress, loopNs: uint64): Progress {
    if loopNs < p.nextSweepNs then p
    else
      var (t, events) := Sweep(p.table, |p.table.sessions|, loopNs, Some(cfg.idleNs));
      p.(table := t, nextSweepNs := Add64(loopNs, SWEEP_INTERVAL_NS), emitted := p.emitted + events)
  }

  function Handle(cfg: LoopConfig, p: Progress, f: AudioFrame, nowNs: uint64): Progress
    requires Coherent(p.table)
  {
    var (t, i) := Acquire(p.table, f.hdr.sessionId, nowNs);
    if i == None then p.(table := t, refused := p.refused + 1)
    else
      var (s, gap, events) := Fed(cfg.chunker, t.sessions[i.value], f, nowNs);
      p.(table := t.(sessions := t.sessions[i.value := s]), frames := p.frames + 1,
         seqGaps := p.seqGaps + gap, emitted := p.emitted + events)
  }

  function OneTurn(cfg: LoopConfig, p: Progress, turn: Turn): Progress
    requires Coherent(p.table)
  {
    SweepIfDueCoherent(cfg, p, turn.loopNs);
    var q := SweepIfDue(cfg, p, turn.loopNs);
    if turn.popped.None? then q else Handle(cfg, q, turn.popped.value, turn.dequeueNs)
  }

  /** The loop from p over the turns, up to the first past the deadline. */
  function Run(cfg: LoopConfig, p: Progress, turns: seq<Turn>): Progress
    requires Coherent(p.table)
    decreases |turns|
  {
    if turns == [] || PastDeadline(cfg, turns[0]) then p
    else
      OneTurnCoherent(cfg, p, turns[0]);
      Run(cfg, OneTurn(cfg, p, turns[0]), turns[1..])
  }

  predicate PastDeadline(cfg: LoopConfig, turn: Turn) {
    cfg.deadlineNs != 0 && turn.loopNs > cfg.deadlineNs
  }

  /** After the loop, every session still live is flushed. */
  function Finish(p: Progress, endNs: uint64): Progress {
    var (t, events) := Sweep(p.table, |p.table.sessions|, endNs, None);
    p.(table := t, emitted := p.emitted + events)
  }

  lemma SweepIfDueCoherent(cfg: LoopConfig, p: Progress, loopNs: uint64)
    requires Coherent(p.table)
    ensures Coherent(SweepIfDue(cfg, p, loopNs).table)
    ensures |SweepIfDue(cfg, p, loopNs).table.sessions| == |p.table.sessions|
  {
    hide Coherent, SweepOne;
    SweepCoherent(p.table, |p.table.sessions|, loopNs, Some(cfg.idleNs));
  }

  lemma HandleCoherent(cfg: LoopConfig, p: Progress, f: AudioFrame, nowNs: uint64)
    requires Coherent(p.table)
    ensures Coherent(Handle(cfg, p, f, nowNs).table)
    ensures |Handle(cfg, p, f, nowNs).table.sessions| == |p.table.sessions|
  {
    hide Coherent, FrameStep;
    FreeInRange(p.table);
    AcquireCoherent(p.table, f.hdr.sessionId, nowNs);
    var (t, i) := Acquire(p.table, f.hdr.sessionId, nowNs);
    if i.Some? {
      TouchCoherent(t, i.value, Fed(cfg.chunker, t.sessions[i.value], f, nowNs).0);
    }
  }

  lemma HandleKeepsSweep(cfg: LoopConfig, p: Progress, f: AudioFrame, nowNs: uint64)
    requires Coherent(p.table)
    ensures Handle(cfg, p, f, nowNs).nextSweepNs == p.nextSweepNs
  {
  }

  lemma OneTurnCoherent(cfg: LoopConfig, p: Progress, turn: Turn)
    requires Coherent(p.table)
    ensures Coherent(OneTurn(cfg, p, turn).table)
    ensures |OneTurn(cfg, p, turn).table.sessions| == |p.table.sessions|
  {
    hide Coherent, Handle;
    SweepIfDueCoherent(cfg, p, turn.loopNs);
    if turn.popped.Some? {
      HandleCoherent(cfg, SweepIfDue(cfg, p, turn.loopNs), turn.popped.value, turn.dequeueNs);
    }
  }
}
