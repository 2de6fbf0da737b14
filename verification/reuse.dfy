// What a call finds on storage another call has used: the assembler as it was
// left. If that call was cut off in mid-speech, the next one is not heard.

module Reuse {
  import opened Words
  import opened Audio
  import Gate
  import opened Chunker
  import opened Coverage
  import opened SessionIndex
  import opened SessionView
  import opened SessionRuns
  import opened HotLoop
  import opened Demux

  predicate LoudFrame(cfg: ChunkerConfig, f: AudioFrame) {
    Gate.Loud(Gate.Normalised(cfg.gate), cfg.energyOf(f))
  }

  // ------------------------------------------------------ what assemblers are left with

  /** A cooldown may still be running. */
  predicate Cooling(cfg: ChunkerConfig, g: Gate.GateState) { cfg.gate.cooldownMs > 0.0 && g.hasTriggered }

  /** An open chunk means a speaking gate; a gate that is not speaking, nor held back by a cooldown, has not yet
      filled its window; and the pre-roll is no longer than it may be. */
  predicate Sane(cfg: ChunkerConfig, a: AssemblerState) {
    && (a.active ==> a.gate.speaking)
    && (!a.gate.speaking && !Cooling(cfg, a.gate) ==> a.gate.loudFrames < Gate.Normalised(cfg.gate).speechFrames)
    && (a.gate.hasTriggered ==> a.gate.lastTriggerMs >= 0.0)
    && |a.preRoll| <= cfg.preRollFrames
  }

  lemma FrameKeepsSane(cfg: ChunkerConfig, a: AssemblerState, f: AudioFrame, nowNs: uint64)
    requires Sane(cfg, a)
    ensures Sane(cfg, FrameStep(cfg, a, f, nowNs).0)
  {
    hide AppendAll, Append;
    GateOf(cfg, a, f, nowNs);
    PreRollOf(cfg, a, f, nowNs);
  }

  /** The gate's part of a frame, and what becomes of the chunk. */
  lemma GateOf(cfg: ChunkerConfig, a: AssemblerState, f: AudioFrame, nowNs: uint64)
    ensures var (g, onset) := Gate.Step(Gate.Normalised(cfg.gate), a.gate, LoudFrame(cfg, f), Millis(nowNs));
      var (b, c) := FrameStep(cfg, a, f, nowNs);
      && b.gate == g
      && (a.active || onset ==> b.active || c.Some?)
      && (!a.active && !onset ==> !b.active && c == None)
      && (b.active ==> g.speaking)
  {
  }

  /** And of the pre-roll: it goes into the chunk that opens, and otherwise the frame joins it. */
  lemma PreRollOf(cfg: ChunkerConfig, a: AssemblerState, f: AudioFrame, nowNs: uint64)
    ensures var (b, c) := FrameStep(cfg, a, f, nowNs);
      var onset := Gate.Step(Gate.Normalised(cfg.gate), a.gate, LoudFrame(cfg, f), Millis(nowNs)).1;
      && b.preRoll == if a.active then a.preRoll else if onset then [] else LastOf(a.preRoll + [f], cfg.preRollFrames)
  {
  }

  /** Every assembler of the table is sane, and none of a session that is not live has a chunk open. */
  predicate Settled(cfg: ChunkerConfig, t: TableView) {
    forall i :: 0 <= i < |t.sessions| ==>
      Sane(cfg, t.sessions[i].assembler) && (t.sessions[i].assembler.active ==> t.sessions[i].active)
  }

  lemma SweepSettles(cfg: LoopConfig, p: Progress, loopNs: uint64)
    requires Settled(cfg.chunker, p.table)
    ensures Settled(cfg.chunker, SweepIfDue(cfg, p, loopNs).table)
  {
    hide Sweep;
    if loopNs >= p.nextSweepNs {
      SweepTouchesExactly(p.table, |p.table.sessions|, loopNs, Some(cfg.idleNs));
    }
  }

  lemma HandleSettles(cfg: LoopConfig, p: Progress, f: AudioFrame, nowNs: uint64)
    requires Coherent(p.table) && Settled(cfg.chunker, p.table)
    ensures Settled(cfg.chunker, Handle(cfg, p, f, nowNs).table)
  {
    hide FrameStep, Sane, Partitions;
    FreeInRange(p.table);
    var (t, i) := Acquire(p.table, f.hdr.sessionId, nowNs);
    if i.Some? {
      FrameKeepsSane(cfg.chunker, t.sessions[i.value].assembler, f, nowNs);
    }
  }

  /** So it is in every state the loop reaches. */
  lemma {:induction false} LoopSettles(cfg: LoopConfig, p: Progress, turns: seq<Turn>)
    requires Coherent(p.table) && Settled(cfg.chunker, p.table)
    ensures Coherent(Run(cfg, p, turns).table) && Settled(cfg.chunker, Run(cfg, p, turns).table)
    decreases |turns|
  {
    hide Coherent, Handle, SweepIfDue, Settled;
    if turns != [] && !PastDeadline(cfg, turns[0]) {
      SweepIfDueCoherent(cfg, p, turns[0].loopNs);
      SweepSettles(cfg, p, turns[0].loopNs);
      if turns[0].popped.Some? {
        HandleSettles(cfg, SweepIfDue(cfg, p, turns[0].loopNs), turns[0].popped.value, turns[0].dequeueNs);
      }
      OneTurnCoherent(cfg, p, turns[0]);
      LoopSettles(cfg, OneTurn(cfg, p, turns[0]), turns[1..]);
    }
  }

  lemma NewTableIsSettled(cfg: ChunkerConfig, max: nat)
    ensures Settled(cfg, NewTable(max))
  {
  }

  // ------------------------------------------------------ a first spell

  /** No hangover's worth of quiet frames in a row, q of them having gone before. */
  predicate NoHangover(cfg: ChunkerConfig, fs: seq<(AudioFrame, uint64)>, q: nat) {
    fs == [] ||
    if LoudFrame(cfg, fs[0].0) then NoHangover(cfg, fs[1..], 0)
    else q + 1 < cfg.gate.silenceFrames && NoHangover(cfg, fs[1..], q + 1)
  }

  /** The next n frames are loud. */
  predicate Loudly(cfg: ChunkerConfig, fs: seq<(AudioFrame, uint64)>, n: nat) {
    n <= |fs| && forall k :: 0 <= k < n ==> LoudFrame(cfg, fs[k].0)
  }

  /** A spell of speech: a window's worth of loud frames, and then no hangover's worth of quiet ones. */
  predicate Spell(cfg: ChunkerConfig, fs: seq<(AudioFrame, uint64)>) {
    Loudly(cfg, fs, Gate.Normalised(cfg.gate).speechFrames) && NoHangover(cfg, fs, 0)
  }

  /** The call got a chunk: one came out, or one is open. */
  predicate Heard(r: (AssemblerState, seq<ChunkEvent>)) { r.0.active || r.1 != [] }

  /** A gate that speaks while no chunk is open stays deaf until the hangover runs out. */
  lemma {:induction false} DeafWhileSpeaking(cfg: ChunkerConfig, a: AssemblerState, fs: seq<(AudioFrame, uint64)>,
                                             c: uint32)
    requires !a.active && a.gate.speaking && NoHangover(cfg, fs, a.gate.quietFrames)
    ensures Lone(cfg, a, fs, c).1 == [] && !Lone(cfg, a, fs, c).0.active && Lone(cfg, a, fs, c).0.gate.speaking
    decreases |fs|
  {
    hide FrameStep;
    if fs != [] {
      GateOf(cfg, a, fs[0].0, fs[0].1);
      DeafWhileSpeaking(cfg, FrameStep(cfg, a, fs[0].0, fs[0].1).0, fs[1..], c);
    }
  }

  lemma {:induction false} OnceOpenIsHeard(cfg: ChunkerConfig, a: AssemblerState, fs: seq<(AudioFrame, uint64)>,
                                           c: uint32)
    requires a.active
    ensures Heard(Lone(cfg, a, fs, c))
    decreases |fs|
  {
    hide FrameStep;
    if fs != [] {
      GateOf(cfg, a, fs[0].0, fs[0].1);
      var (b, e) := FrameStep(cfg, a, fs[0].0, fs[0].1);
      if e == None { OnceOpenIsHeard(cfg, b, fs[1..], c); }
    }
  }

  lemma {:induction false} LoudFramesAreHeard(cfg: ChunkerConfig, a: AssemblerState, fs: seq<(AudioFrame, uint64)>,
                                              c: uint32)
    requires Sane(cfg, a) && !a.gate.speaking && !Cooling(cfg, a.gate)
    requires Loudly(cfg, fs, Gate.Normalised(cfg.gate).speechFrames - a.gate.loudFrames)
    ensures Heard(Lone(cfg, a, fs, c))
    decreases |fs|
  {
    hide FrameStep;
    GateOf(cfg, a, fs[0].0, fs[0].1);
    FrameKeepsSane(cfg, a, fs[0].0, fs[0].1);
    var (b, e) := FrameStep(cfg, a, fs[0].0, fs[0].1);
    if b.active {
      OnceOpenIsHeard(cfg, b, fs[1..], c);
    } else if e == None {
      LoudFramesAreHeard(cfg, b, fs[1..], c);
    }
  }

  /** On storage left by another call with no cooldown running, the first spell of speech gets a chunk exactly when
      the gate was not left speaking. */
  lemma FirstSpellIsHeardExactlyWhen(cfg: ChunkerConfig, a: AssemblerState, fs: seq<(AudioFrame, uint64)>, c: uint32)
    requires Sane(cfg, a) && !a.active && Spell(cfg, fs) && (Cooling(cfg, a.gate) ==> a.gate.speaking)
    ensures Heard(Lone(cfg, a, fs, c)) <==> !a.gate.speaking
  {
    hide FrameStep, Lone;
    if a.gate.speaking {
      assert LoudFrame(cfg, fs[0].0);
      assert NoHangover(cfg, fs, a.gate.quietFrames);
      DeafWhileSpeaking(cfg, a, fs, c);
    } else {
      LoudFramesAreHeard(cfg, a, fs, c);
    }
  }

  // ------------------------------------------------------ in a run

  /** In any state of any run: a call that opens now, and is not expired while its first spell lasts, gets a chunk
      for that spell exactly when the last call on its storage did not leave the gate speaking. */
  lemma NewCallIsHeardExactlyWhen(cfg: LoopConfig, p: Progress, turns: seq<Turn>, c: uint32)
    requires Coherent(p.table) && Settled(cfg.chunker, p.table)
    requires turns != [] && !PastDeadline(cfg, turns[0]) && c !in p.table.dir
    requires turns[0].popped.Some? && turns[0].popped.value.hdr.sessionId == c
    requires var s := SweepIfDue(cfg, p, turns[0].loopNs).table;
      Coherent(s) && s.free != [] && (Cooling(cfg.chunker, NextAssembler(s).gate) ==> NextAssembler(s).gate.speaking)
    requires var q := OneTurn(cfg, p, turns[0]); Coherent(q.table) && Spared(cfg, q, turns[1..], c)
    requires Spell(cfg.chunker, Own(cfg, turns, c))
    ensures var s, q := SweepIfDue(cfg, p, turns[0].loopNs).table, Run(cfg, p, turns);
      && c in q.table.dir && q.table.dir[c] < |q.table.sessions|
      && var heard := Tagged(q.emitted, c) != Tagged(p.emitted, c) || q.table.sessions[q.table.dir[c]].assembler.active;
      heard <==> !NextAssembler(s).gate.speaking
  {
    hide SweepIfDue, Handle, FrameStep, Tagged, Partitions, Swept, Spell, Sane, Lone, Own, EventFor, Spared;
    var f, s := turns[0].popped.value, SweepIfDue(cfg, p, turns[0].loopNs);
    var a, q := NextAssembler(s.table), OneTurn(cfg, p, turns[0]);
    SweepSpares(cfg, p, turns[0].loopNs, c);
    SweepSettles(cfg, p, turns[0].loopNs);
    FirstFrame(cfg, s, f, turns[0].dequeueNs);
    LiveCallIsAlone(cfg, q, turns[1..], c);
    LoneStep(cfg, a, turns, c);
    NextIsClosed(cfg.chunker, s.table);
    FirstSpellIsHeardExactlyWhen(cfg.chunker, a, Own(cfg, turns, c), c);
  }

  lemma NextIsClosed(cfg: ChunkerConfig, t: TableView)
    requires Coherent(t) && Settled(cfg, t) && t.free != []
    ensures Sane(cfg, NextAssembler(t)) && !NextAssembler(t).active
  {
    hide Sane;
  }

  /** A sweep that closes a session with a chunk open leaves its gate speaking. */
  lemma SweepLeavesGateSpeaking(cfg: ChunkerConfig, t: TableView, nowNs: uint64, idleNs: Option<uint64>, i: nat)
    requires Settled(cfg, t) && i < |t.sessions|
    requires Swept(t.sessions[i], nowNs, idleNs) && t.sessions[i].assembler.active
    ensures var s := Sweep(t, |t.sessions|, nowNs, idleNs).0.sessions[i];
      !s.active && !s.assembler.active && s.assembler.gate.speaking
  {
    hide Sweep;
    SweepTouchesExactly(t, |t.sessions|, nowNs, idleNs);
  }

  // ------------------------------------------------------ a witness

  lemma FirstCallOpens(cfg: LoopConfig, firstSweepNs: uint64, one: Turn)
    requires one.popped.Some? && Eager(cfg.chunker, one.popped.value) && one.loopNs < firstSweepNs
    ensures var q := OneTurn(cfg, Begin(1, firstSweepNs), one);
      && Coherent(q.table) && |q.table.sessions| == 1
      && q.table.dir == map[one.popped.value.hdr.sessionId := 0]
      && q.nextSweepNs == firstSweepNs && q.emitted == []
      && var s := q.table.sessions[0];
      s.active && s.lastFrameNs == one.dequeueNs && s.assembler.active && s.assembler.gate.speaking
  {
    hide FrameStep;
    var p := Begin(1, firstSweepNs);
    OneTurnCoherent(cfg, p, one);
    LoudFrameOpens(cfg.chunker, one.popped.value, one.dequeueNs);
  }

  lemma FirstCallIsSwept(cfg: LoopConfig, q: Progress, two: Turn, d: uint32)
    requires Coherent(q.table) && |q.table.sessions| == 1 && q.table.dir == map[d := 0]
    requires q.nextSweepNs <= two.loopNs && Sub64(two.loopNs, q.table.sessions[0].lastFrameNs) >= cfg.idleNs
    requires var s := q.table.sessions[0]; s.active && s.assembler.active && s.assembler.gate.speaking
    ensures var s := SweepIfDue(cfg, q, two.loopNs).table;
      && Coherent(s) && s.dir == map[] && s.free != []
      && NextAssembler(s).gate.speaking
  {
    hide Sweep;
    SweepIfDueCoherent(cfg, q, two.loopNs);
    SweepClosesExactly(q.table, 1, two.loopNs, Some(cfg.idleNs));
    SweepTouchesExactly(q.table, 1, two.loopNs, Some(cfg.idleNs));
    var s := SweepIfDue(cfg, q, two.loopNs).table;
    assert s.dir == Survivors(q.table, 1, two.loopNs, Some(cfg.idleNs)) == map[];
    FreeLeavesRoom(s);
    FreeInRange(s);
  }

  lemma OneFrameIsASpell(cfg: ChunkerConfig, g: AudioFrame, nowNs: uint64, c: uint32)
    requires Eager(cfg, g)
    ensures Spell(cfg, [(g, nowNs)]) && Lone(cfg, FRESH, [(g, nowNs)], c).0.active
  {
    hide FrameStep;
    LoudFrameOpens(cfg, g, nowNs);
    var fs := [(g, nowNs)];
    assert fs[1..] == [] && NoHangover(cfg, [], 0);
    assert LoudFrame(cfg, fs[0].0) && Loudly(cfg, fs, 1);
  }

  lemma OwnOfSecond(cfg: LoopConfig, one: Turn, two: Turn)
    requires one.popped.Some? && two.popped.Some? && cfg.deadlineNs == 0
    requires one.popped.value.hdr.sessionId != two.popped.value.hdr.sessionId
    ensures var c, own := two.popped.value.hdr.sessionId, [(two.popped.value, two.dequeueNs)];
      Own(cfg, [two], c) == own && Own(cfg, [one, two], c) == own
  {
    var c := two.popped.value.hdr.sessionId;
    assert [one, two][1..] == [two] && [two][1..] == [];
    assert Own(cfg, [], c) == [];
    assert Own(cfg, [two], c) == [(two.popped.value, two.dequeueNs)] + [];
    assert Own(cfg, [one, two], c) == [] + Own(cfg, [two], c);
  }

  /** Two calls, one session, one loud frame each; the first call is swept with its chunk open before the second
      comes. The second call's frame would make a chunk of its own, and the run emits nothing for it. */
  lemma ReuseSilencesACall(cfg: LoopConfig, firstSweepNs: uint64, one: Turn, two: Turn, endNs: uint64)
    requires one.popped.Some? && two.popped.Some?
    requires var f, g := one.popped.value, two.popped.value;
      f.hdr.sessionId != g.hdr.sessionId && Eager(cfg.chunker, f) && Eager(cfg.chunker, g)
    requires cfg.deadlineNs == 0
    requires one.loopNs < firstSweepNs <= two.loopNs && Sub64(two.loopNs, one.dequeueNs) >= cfg.idleNs
    ensures var c, q := two.popped.value.hdr.sessionId, Run(cfg, Begin(1, firstSweepNs), [one, two]);
      && Tagged(Finish(q, endNs).emitted, c) == []
      && Lone(cfg.chunker, FRESH, Own(cfg, [one, two], c), c).0.active
  {
    hide Coherent, OneTurn, SweepIfDue, FrameStep, Tagged, Lone, Settled, Own, Finish, Spell, Eager;
    var c, f, g := two.popped.value.hdr.sessionId, one.popped.value, two.popped.value;
    var p := Begin(1, firstSweepNs);
    var q := OneTurn(cfg, p, one);
    NewTableIsSettled(cfg.chunker, 1);
    FirstCallOpens(cfg, firstSweepNs, one);
    FirstCallIsSwept(cfg, q, two, f.hdr.sessionId);
    OwnOfSecond(cfg, one, two);
    OneFrameIsASpell(cfg.chunker, g, two.dequeueNs, c);
    assert [one][1..] == [] && [one, two][1..] == [two] && [two][1..] == [];
    LoopSettles(cfg, p, [one]);
    OneTurnCoherent(cfg, q, two);
    NewCallIsHeardExactlyWhen(cfg, q, [two], c);
    NothingTagged(c);
    RunCoherent(cfg, p, [one, two]);
    assert Run(cfg, p, [one, two]) == Run(cfg, q, [two]);
    ClosedSaysNothing(Run(cfg, q, [two]), endNs, c);
  }

  lemma NothingTagged(c: uint32)
    ensures Tagged([], c) == []
  {
  }

  /** The closing flush of a call with no chunk open. */
  lemma ClosedSaysNothing(p: Progress, endNs: uint64, c: uint32)
    requires Coherent(p.table)
    requires c in p.table.dir && p.table.dir[c] < |p.table.sessions|
    requires !p.table.sessions[p.table.dir[c]].assembler.active
    ensures Tagged(Finish(p, endNs).emitted, c) == Tagged(p.emitted, c)
  {
    hide Coherent, Tagged, Finish;
    FinalFlush(p, endNs, c);
  }
}
