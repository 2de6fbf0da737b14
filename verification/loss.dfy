// Loss accounting: the gaps the hot loop counts are the frames the producer shed.

module Loss {
  import opened Words
  import opened Audio
  import opened Chunker
  import opened SessionIndex
  import opened SessionView
  import opened HotLoop
  import opened Demux

  // ------------------------------------------------------ one call

  /** The sequence numbers of call c's frames, in order. */
  function SeqsOf(frames: seq<AudioFrame>, c: uint32): seq<uint64> {
    if frames == [] then []
    else
      var f := frames[|frames| - 1];
      SeqsOf(frames[..|frames| - 1], c) + if f.hdr.sessionId == c then [f.hdr.seqNo] else []
  }

  /** The gaps a session counts while these sequence numbers go by. */
  function GapTotal(seqs: seq<uint64>): nat {
    if |seqs| < 2 then 0
    else GapTotal(seqs[..|seqs| - 1]) + GapAfter(seqs[|seqs| - 2], seqs[|seqs| - 1])
  }

  lemma SeqsOfOneMore(past: seq<AudioFrame>, f: AudioFrame, c: uint32)
    ensures SeqsOf(past + [f], c) == SeqsOf(past, c) + if f.hdr.sessionId == c then [f.hdr.seqNo] else []
  {
    assert (past + [f])[..|past|] == past;
  }

  lemma GapTotalOneMore(s: seq<uint64>, q: uint64)
    ensures GapTotal(s + [q]) == GapTotal(s) + if s == [] then 0 else GapAfter(s[|s| - 1], q)
  {
    assert (s + [q])[..|s|] == s;
  }

  /** The sequence numbers strictly between two. */
  ghost function Between(last: int, seqNo: int): set<int> {
    set q: int | last < q < seqNo && PassedOver(last, q, seqNo)
  }

  predicate PassedOver(last: int, q: int, seqNo: int) { last < q < seqNo }

  lemma {:induction false} BetweenCounts(last: int, seqNo: int)
    ensures |Between(last, seqNo)| == if seqNo > last + 1 then seqNo - last - 1 else 0
    decreases seqNo - last
  {
    if seqNo > last + 1 {
      BetweenCounts(last, seqNo - 1);
      assert Between(last, seqNo) == Between(last, seqNo - 1) + {seqNo - 1};
    } else {
      assert Between(last, seqNo) == {};
    }
  }

  /** A gap is how many numbers were passed over: none for a number that repeats or comes late, and across the end of a
      word those from 0 up. */
  lemma GapIsNumbersBetween(last: uint64, seqNo: uint64)
    ensures last < TWO_64 - 1 ==> GapAfter(last, seqNo) == |Between(last, seqNo)|
    ensures last == TWO_64 - 1 ==> GapAfter(last, seqNo) == |Between(-1, seqNo)|
  {
    BetweenCounts(last, seqNo);
    BetweenCounts(-1, seqNo);
  }

  predicate Increasing(seqs: seq<uint64>) {
    forall i :: 0 < i < |seqs| ==> seqs[i - 1] < seqs[i]
  }

  /** Within one session lifetime, frames plus gaps span the sequence numbers exactly. */
  lemma {:induction false} GapsTelescope(seqs: seq<uint64>)
    requires seqs != [] && Increasing(seqs)
    ensures |seqs| + GapTotal(seqs) == 1 + (seqs[|seqs| - 1] as int - seqs[0])
  {
    if |seqs| > 1 { GapsTelescope(seqs[..|seqs| - 1]); }
  }

  // ------------------------------------------------------ what the producer shed

  /** The numbers of the frames that got into the ring, when acc[q] says whether frame q did. */
  function Delivered(acc: seq<bool>): (d: seq<uint64>)
    requires |acc| < TWO_64
    ensures forall i :: 0 <= i < |d| ==> d[i] < |acc| && acc[d[i]]
    ensures Increasing(d)
  {
    if acc == [] then []
    else
      var d := Delivered(acc[..|acc| - 1]);
      if acc[|acc| - 1] then d + [|acc| - 1] else d
  }

  /** Frames shed among lo..hi. */
  function Shed(acc: seq<bool>, lo: nat, hi: nat): nat
    requires hi <= |acc|
    decreases hi
  {
    if hi <= lo then 0 else Shed(acc, lo, hi - 1) + if acc[hi - 1] then 0 else 1
  }

  /** Frames shed strictly between the first delivered one and the last. */
  function ShedInside(acc: seq<bool>): nat
    requires |acc| < TWO_64
  {
    var d := Delivered(acc);
    if d == [] then 0 else Shed(acc, d[0], d[|d| - 1])
  }

  lemma {:induction false} ShedPrefix(acc: seq<bool>, b: bool, lo: nat, hi: nat)
    requires hi <= |acc|
    ensures Shed(acc + [b], lo, hi) == Shed(acc, lo, hi)
    decreases hi
  {
    if lo < hi { ShedPrefix(acc, b, lo, hi - 1); }
  }

  /** After the last delivered frame everything was shed. */
  lemma {:induction false} ShedSinceLast(acc: seq<bool>)
    requires |acc| < TWO_64 && Delivered(acc) != []
    ensures var d := Delivered(acc);
      Shed(acc, d[0], |acc|) == Shed(acc, d[0], d[|d| - 1]) + (|acc| - d[|d| - 1] - 1)
  {
    var rest, last := acc[..|acc| - 1], acc[|acc| - 1];
    var d := Delivered(acc);
    assert acc == rest + [last];
    assert Shed(acc, d[0], |acc|) == Shed(acc, d[0], |rest|) + if last then 0 else 1;
    if !last {
      assert d == Delivered(rest);
      ShedSinceLast(rest);
      ShedPrefix(rest, last, d[0], |rest|);
      ShedPrefix(rest, last, d[0], d[|d| - 1]);
    }
  }

  lemma DeliveredOneMore(acc: seq<bool>, b: bool)
    requires |acc| + 1 < TWO_64
    ensures Delivered(acc + [b]) == Delivered(acc) + if b then [|acc|] else []
  {
    assert (acc + [b])[..|acc|] == acc;
  }

  lemma ShedNone(acc: seq<bool>, n: nat)
    requires n <= |acc|
    ensures Shed(acc, n, n) == 0
  {
  }

  /** A call's gap count is the number of its frames shed between the first and the last delivered. */
  lemma {:induction false} GapsAreShed(acc: seq<bool>)
    requires |acc| < TWO_64
    ensures GapTotal(Delivered(acc)) == ShedInside(acc)
  {
    hide Delivered, Shed, GapTotal, Increasing;
    if acc == [] {
      NoGapsYetDelivered();
    } else {
      var rest, b := acc[..|acc| - 1], acc[|acc| - 1];
      var d, n := Delivered(rest), |rest|;
      assert acc == rest + [b];
      GapsAreShed(rest);
      DeliveredOneMore(rest, b);
      assert d + [] == d;
      if b { GapTotalOneMore(d, n); }
      if d != [] {
        ShedPrefix(rest, b, d[0], d[|d| - 1]);
        ShedPrefix(rest, b, d[0], n);
        ShedSinceLast(rest);
      } else {
        ShedNone(acc, n);
        NoGapsYetDelivered();
      }
    }
  }

  lemma NoGapsYetDelivered()
    ensures GapTotal([]) == 0 && Delivered([]) == []
  {
  }

  // ------------------------------------------------------ all calls

  /** Gaps over the calls of dir below `calls`. */
  function SumGaps(dir: map<nat, nat>, frames: seq<AudioFrame>, calls: nat): nat
    requires calls <= TWO_32
  {
    if calls == 0 then 0
    else SumGaps(dir, frames, calls - 1) + if calls - 1 in dir then GapTotal(SeqsOf(frames, calls - 1)) else 0
  }

  /** The gap frame f shows, given the frames before it. */
  function GapOf(past: seq<AudioFrame>, f: AudioFrame): nat {
    var s := SeqsOf(past, f.hdr.sessionId);
    if s == [] then 0 else GapAfter(s[|s| - 1], f.hdr.seqNo)
  }

  /** Nothing but call c may have come in, and c only as a call not heard before. */
  ghost predicate Joins(dir: map<nat, nat>, dir': map<nat, nat>, past: seq<AudioFrame>, c: uint32) {
    && (forall d :: d != c ==> (d in dir' <==> d in dir))
    && (c in dir ==> c in dir')
    && (c in dir' && c !in dir ==> SeqsOf(past, c) == [])
  }

  lemma {:induction false} SumGapsGrows(dir: map<nat, nat>, dir': map<nat, nat>, past: seq<AudioFrame>, f: AudioFrame,
                                        calls: nat)
    requires calls <= TWO_32 && Joins(dir, dir', past, f.hdr.sessionId)
    ensures SumGaps(dir', past + [f], calls) == SumGaps(dir, past, calls) +
      if f.hdr.sessionId < calls && f.hdr.sessionId in dir' then GapOf(past, f) else 0
  {
    hide SeqsOf, GapTotal;
    if calls > 0 {
      SumGapsGrows(dir, dir', past, f, calls - 1);
      SeqsOfOneMore(past, f, calls - 1);
      assert SeqsOf(past, calls - 1) + [] == SeqsOf(past, calls - 1);
      GapTotalOneMore(SeqsOf(past, calls - 1), f.hdr.seqNo);
      NoGapsInNothing();
    }
  }

  lemma NoGapsInNothing()
    ensures GapTotal([]) == 0
  {
  }

  /** A live call was heard, and its session remembers its last frame. A call that is not live was never heard, or
      was refused and stays out. */
  ghost predicate RemembersCall(t: TableView, past: seq<AudioFrame>, c: uint32)
    requires Coherent(t)
  {
    var s := SeqsOf(past, c);
    if c in t.dir then
      s != [] && t.sessions[t.dir[c]].haveLastSeq && t.sessions[t.dir[c]].lastSeq == s[|s| - 1]
    else s == [] || t.free == []
  }

  ghost predicate Remembers(t: TableView, past: seq<AudioFrame>)
    requires Coherent(t)
  {
    forall c: uint32 :: RemembersCall(t, past, c)
  }

  lemma RemembersOther(cfg: LoopConfig, p: Progress, past: seq<AudioFrame>, f: AudioFrame, nowNs: uint64, c: uint32)
    requires Coherent(p.table) && RemembersCall(p.table, past, c) && c != f.hdr.sessionId
    ensures Coherent(Handle(cfg, p, f, nowNs).table) && RemembersCall(Handle(cfg, p, f, nowNs).table, past + [f], c)
    ensures c in Handle(cfg, p, f, nowNs).table.dir <==> c in p.table.dir
  {
    hide SeqsOf, Handle, Partitions;
    HandleCoherent(cfg, p, f, nowNs);
    SeqsOfOneMore(past, f, c);
    assert SeqsOf(past, c) + [] == SeqsOf(past, c);
    OthersFrame(cfg, p, f, nowNs, c);
    StaysFull(cfg, p, f, nowNs);
  }

  lemma StaysFull(cfg: LoopConfig, p: Progress, f: AudioFrame, nowNs: uint64)
    requires Coherent(p.table)
    ensures p.table.free == [] ==> Handle(cfg, p, f, nowNs).table.free == []
  {
    hide FrameStep;
  }

  /** The frame's own call: refused if it is not live and no session is free, and otherwise live afterwards,
      remembering the frame. */
  lemma HandleOwn(cfg: LoopConfig, p: Progress, f: AudioFrame, nowNs: uint64)
    requires Coherent(p.table)
    ensures var c, t, q := f.hdr.sessionId, p.table, Handle(cfg, p, f, nowNs);
      if c !in t.dir && t.free == [] then
        q == p.(table := t.(rejected := t.rejected + 1), refused := p.refused + 1)
      else
        && c in q.table.dir && q.table.dir[c] < |q.table.sessions|
        && q.table.sessions[q.table.dir[c]].haveLastSeq && q.table.sessions[q.table.dir[c]].lastSeq == f.hdr.seqNo
        && q.table.sessions[q.table.dir[c]].frames == 1 + (if c in t.dir then t.sessions[t.dir[c]].frames else 0)
        && q.frames == p.frames + 1 && q.refused == p.refused
        && q.seqGaps == p.seqGaps +
             if c in t.dir && t.sessions[t.dir[c]].haveLastSeq
             then GapAfter(t.sessions[t.dir[c]].lastSeq, f.hdr.seqNo) else 0
  {
    hide FrameStep;
  }

  lemma HandleCountsGap(cfg: LoopConfig, p: Progress, past: seq<AudioFrame>, f: AudioFrame, nowNs: uint64)
    requires Coherent(p.table) && Remembers(p.table, past)
    ensures var q := Handle(cfg, p, f, nowNs);
      && Coherent(q.table) && Remembers(q.table, past + [f])
      && Joins(p.table.dir, q.table.dir, past, f.hdr.sessionId)
      && q.seqGaps == p.seqGaps + (if f.hdr.sessionId in q.table.dir then GapOf(past, f) else 0)
      && q.frames + q.refused == p.frames + p.refused + 1
  {
    hide SeqsOf, Handle, Partitions, RemembersCall;
    var c, q := f.hdr.sessionId, Handle(cfg, p, f, nowNs);
    HandleCoherent(cfg, p, f, nowNs);
    HandleOwn(cfg, p, f, nowNs);
    assert RemembersCall(p.table, past, c);
    OwnIsRemembered(cfg, p, past, f, nowNs);
    forall d: uint32
      ensures RemembersCall(q.table, past + [f], d) && (d != c ==> (d in q.table.dir <==> d in p.table.dir))
    {
      assert RemembersCall(p.table, past, d);
      if d != c { RemembersOther(cfg, p, past, f, nowNs, d); }
    }
    forall d | d != c ensures d in q.table.dir <==> d in p.table.dir { DirGrowsBy(cfg, p, f, nowNs, d); }
  }

  lemma DirGrowsBy(cfg: LoopConfig, p: Progress, f: AudioFrame, nowNs: uint64, d: nat)
    requires Coherent(p.table) && d != f.hdr.sessionId
    ensures d in Handle(cfg, p, f, nowNs).table.dir <==> d in p.table.dir
  {
    hide FrameStep;
  }

  lemma OwnIsRemembered(cfg: LoopConfig, p: Progress, past: seq<AudioFrame>, f: AudioFrame, nowNs: uint64)
    requires Coherent(p.table) && RemembersCall(p.table, past, f.hdr.sessionId)
    ensures var c, q := f.hdr.sessionId, Handle(cfg, p, f, nowNs);
      && Coherent(q.table) && RemembersCall(q.table, past + [f], c)
      && (c in p.table.dir ==> c in q.table.dir)
      && (c in q.table.dir && c !in p.table.dir ==> SeqsOf(past, c) == [])
      && q.seqGaps == p.seqGaps + (if c in q.table.dir then GapOf(past, f) else 0)
  {
    hide SeqsOf, Handle, Partitions;
    HandleCoherent(cfg, p, f, nowNs);
    HandleOwn(cfg, p, f, nowNs);
    SeqsOfOneMore(past, f, f.hdr.sessionId);
  }

  /** The frames popped over the turns the loop gets to. */
  function Popped(cfg: LoopConfig, turns: seq<Turn>): seq<AudioFrame> {
    if turns == [] || PastDeadline(cfg, turns[0]) then []
    else (if turns[0].popped.Some? then [turns[0].popped.value] else []) + Popped(cfg, turns[1..])
  }

  /** What the loop has counted is what the frames popped so far say. */
  ghost predicate Counted(p: Progress, past: seq<AudioFrame>) {
    && Coherent(p.table) && Remembers(p.table, past)
    && p.seqGaps == SumGaps(p.table.dir, past, TWO_32)
    && p.frames + p.refused == |past|
  }

  /** Whatever calls interleave and are refused: with no expiry, seq_gaps is the sum over the calls that were admitted
      of each one's own gaps, and every frame popped was fed or refused. */
  lemma {:induction false} RunCountsGaps(cfg: LoopConfig, p: Progress, past: seq<AudioFrame>, turns: seq<Turn>)
    requires Coherent(p.table) && Counted(p, past) && NoExpiry(cfg, p, turns)
    ensures Counted(Run(cfg, p, turns), past + Popped(cfg, turns))
    decreases |turns|
  {
    hide OneTurn, Counted, Coherent;
    if turns == [] || PastDeadline(cfg, turns[0]) {
      assert past + [] == past;
    } else {
      var q := OneTurn(cfg, p, turns[0]);
      OneTurnCoherent(cfg, p, turns[0]);
      TurnCountsGap(cfg, p, past, turns[0]);
      var now := if turns[0].popped.Some? then [turns[0].popped.value] else [];
      RunCountsGaps(cfg, q, past + now, turns[1..]);
      assert past + now + Popped(cfg, turns[1..]) == past + Popped(cfg, turns);
    }
  }

  lemma TurnCountsGap(cfg: LoopConfig, p: Progress, past: seq<AudioFrame>, turn: Turn)
    requires Counted(p, past)
    requires Due(p, turn) ==> NoneSwept(p.table, turn.loopNs, Some(cfg.idleNs))
    ensures Counted(OneTurn(cfg, p, turn), past + if turn.popped.Some? then [turn.popped.value] else [])
  {
    hide Coherent, Remembers, SumGaps, Handle, Sweep, Joins, GapOf;
    IdleSweepIfDue(cfg, p, turn);
    var s := SweepIfDue(cfg, p, turn.loopNs);
    assert past + [] == past;
    if turn.popped.Some? {
      HandleCountsGap(cfg, s, past, turn.popped.value, turn.dequeueNs);
      var q := Handle(cfg, s, turn.popped.value, turn.dequeueNs);
      SumGapsGrows(s.table.dir, q.table.dir, past, turn.popped.value, TWO_32);
    }
  }

  // ------------------------------------------------------ one lifetime

  /** The gaps the loop counts on turns that pop a frame of call c. */
  function GapsFrom(cfg: LoopConfig, p: Progress, turns: seq<Turn>, c: uint32): int
    requires Coherent(p.table)
    decreases |turns|
  {
    if turns == [] || PastDeadline(cfg, turns[0]) then 0
    else
      OneTurnCoherent(cfg, p, turns[0]);
      var q := OneTurn(cfg, p, turns[0]);
      (if turns[0].popped.Some? && turns[0].popped.value.hdr.sessionId == c then q.seqGaps - p.seqGaps else 0)
      + GapsFrom(cfg, q, turns[1..], c)
  }

  /** The sequence numbers of call c's own frames. */
  function OwnSeqs(cfg: LoopConfig, turns: seq<Turn>, c: uint32): (s: seq<uint64>)
    ensures |s| == |Own(cfg, turns, c)|
  {
    if turns == [] || PastDeadline(cfg, turns[0]) then []
    else
      (if turns[0].popped.Some? && turns[0].popped.value.hdr.sessionId == c
       then [turns[0].popped.value.hdr.seqNo] else [])
      + OwnSeqs(cfg, turns[1..], c)
  }

  /** One turn as a live call's counters see it. */
  lemma TurnOfLiveCounters(cfg: LoopConfig, p: Progress, turn: Turn, c: uint32)
    requires Coherent(p.table) && c in p.table.dir
    requires Due(p, turn) ==> !Swept(p.table.sessions[p.table.dir[c]], turn.loopNs, Some(cfg.idleNs))
    ensures var t, q := p.table, OneTurn(cfg, p, turn);
      && c in q.table.dir && q.table.dir[c] == t.dir[c] < |q.table.sessions|
      && var s, s' := t.sessions[t.dir[c]], q.table.sessions[t.dir[c]];
      if turn.popped.Some? && turn.popped.value.hdr.sessionId == c then
        && s'.haveLastSeq && s'.lastSeq == turn.popped.value.hdr.seqNo && s'.frames == s.frames + 1
        && q.seqGaps == p.seqGaps + if s.haveLastSeq then GapAfter(s.lastSeq, s'.lastSeq) else 0
      else s' == s
  {
    hide SweepIfDue, Handle, FrameStep, Tagged, Partitions, Injective, ActiveIfLive, Swept;
    SweepSpares(cfg, p, turn.loopNs, c);
    SweepIfDueCoherent(cfg, p, turn.loopNs);
    SweepCountsNothing(cfg, p, turn.loopNs);
    var q := SweepIfDue(cfg, p, turn.loopNs);
    if turn.popped.Some? {
      if turn.popped.value.hdr.sessionId == c {
        HandleOwn(cfg, q, turn.popped.value, turn.dequeueNs);
        OwnFrame(cfg, q, turn.popped.value, turn.dequeueNs);
      } else {
        OthersFrame(cfg, q, turn.popped.value, turn.dequeueNs, c);
      }
    }
  }

  lemma SweepCountsNothing(cfg: LoopConfig, p: Progress, loopNs: uint64)
    ensures SweepIfDue(cfg, p, loopNs).seqGaps == p.seqGaps
  {
    hide Sweep;
  }

  lemma {:induction false} GapTotalFrom(q: uint64, s: seq<uint64>)
    ensures GapTotal([q] + s) == (if s == [] then 0 else GapAfter(q, s[0])) + GapTotal(s)
  {
    if s != [] {
      var rest := s[..|s| - 1];
      assert ([q] + s)[..|s|] == [q] + rest;
      GapTotalFrom(q, rest);
    }
  }

  /** While a call lives, whatever befalls the others: its session counts its frames, and the gaps its frames show
      are those of its own sequence numbers, from the last one remembered on. */
  lemma {:induction false} LiveCallCounts(cfg: LoopConfig, p: Progress, turns: seq<Turn>, c: uint32)
    requires Coherent(p.table) && c in p.table.dir && Spared(cfg, p, turns, c)
    requires p.table.sessions[p.table.dir[c]].haveLastSeq
    ensures var t, q := p.table, Run(cfg, p, turns);
      && c in q.table.dir && q.table.dir[c] == t.dir[c] < |q.table.sessions|
      && var s, s' := t.sessions[t.dir[c]], q.table.sessions[t.dir[c]];
      && s'.frames == s.frames + |Own(cfg, turns, c)|
      && GapsFrom(cfg, p, turns, c) == GapTotal([s.lastSeq] + OwnSeqs(cfg, turns, c))
    decreases |turns|
  {
    hide OneTurn, Partitions, Injective, ActiveIfLive, Swept, GapTotal;
    if turns == [] || PastDeadline(cfg, turns[0]) {
      GapTotalFrom(p.table.sessions[p.table.dir[c]].lastSeq, []);
      NoGapsInNothing();
    } else {
      var q, s := OneTurn(cfg, p, turns[0]), p.table.sessions[p.table.dir[c]];
      TurnOfLiveCounters(cfg, p, turns[0], c);
      OneTurnCoherent(cfg, p, turns[0]);
      LiveCallCounts(cfg, q, turns[1..], c);
      var later := OwnSeqs(cfg, turns[1..], c);
      if turns[0].popped.Some? && turns[0].popped.value.hdr.sessionId == c {
        GapTotalFrom(s.lastSeq, [turns[0].popped.value.hdr.seqNo] + later);
      } else {
        assert OwnSeqs(cfg, turns, c) == later && Own(cfg, turns, c) == Own(cfg, turns[1..], c);
      }
    }
  }

  /** A whole lifetime, from the frame that opens it to wherever the run ends, among any other calls, refusals and
      expiries: the session's frames plus the gaps they showed span its sequence numbers exactly. */
  lemma LifetimeTelescopes(cfg: LoopConfig, p: Progress, turns: seq<Turn>, c: uint32)
    requires Coherent(p.table) && c !in p.table.dir
    requires turns != [] && !PastDeadline(cfg, turns[0])
    requires turns[0].popped.Some? && turns[0].popped.value.hdr.sessionId == c
    requires Coherent(OneTurn(cfg, p, turns[0]).table) && c in OneTurn(cfg, p, turns[0]).table.dir
    requires Spared(cfg, OneTurn(cfg, p, turns[0]), turns[1..], c)
    ensures var q, seqs := Run(cfg, p, turns), OwnSeqs(cfg, turns, c);
      && c in q.table.dir && q.table.dir[c] < |q.table.sessions|
      && var s := q.table.sessions[q.table.dir[c]];
      && s.frames == |seqs| == |Own(cfg, turns, c)| > 0
      && GapsFrom(cfg, p, turns, c) == GapTotal(seqs)
      && (Increasing(seqs) ==> s.frames + GapsFrom(cfg, p, turns, c) == 1 + (seqs[|seqs| - 1] as int - seqs[0]))
  {
    hide OneTurn, Partitions, Injective, ActiveIfLive, Swept, GapTotal;
    var q := OneTurn(cfg, p, turns[0]);
    OpeningCounts(cfg, p, turns[0], c);
    LiveCallCounts(cfg, q, turns[1..], c);
    assert OwnSeqs(cfg, turns, c) == [turns[0].popped.value.hdr.seqNo] + OwnSeqs(cfg, turns[1..], c);
    if Increasing(OwnSeqs(cfg, turns, c)) { GapsTelescope(OwnSeqs(cfg, turns, c)); }
  }

  lemma OpeningCounts(cfg: LoopConfig, p: Progress, turn: Turn, c: uint32)
    requires Coherent(p.table) && c !in p.table.dir
    requires turn.popped.Some? && turn.popped.value.hdr.sessionId == c
    requires c in OneTurn(cfg, p, turn).table.dir
    ensures var q := OneTurn(cfg, p, turn);
      && q.table.dir[c] < |q.table.sessions|
      && q.table.sessions[q.table.dir[c]].frames == 1 && q.table.sessions[q.table.dir[c]].haveLastSeq
      && q.table.sessions[q.table.dir[c]].lastSeq == turn.popped.value.hdr.seqNo
      && q.seqGaps == p.seqGaps
  {
    hide SweepIfDue, Handle, FrameStep, Tagged, Partitions, Injective, ActiveIfLive, Swept;
    SweepSpares(cfg, p, turn.loopNs, c);
    SweepIfDueCoherent(cfg, p, turn.loopNs);
    SweepCountsNothing(cfg, p, turn.loopNs);
    HandleOwn(cfg, SweepIfDue(cfg, p, turn.loopNs), turn.popped.value, turn.dequeueNs);
  }

  // ------------------------------------------------------ producer to metric

  /** One frame the producer tried to push, and whether the ring took it. */
  datatype Attempt = Attempt(frame: AudioFrame, accepted: bool)

  function Accepted(attempts: seq<Attempt>): seq<AudioFrame> {
    if attempts == [] then []
    else
      var a := attempts[|attempts| - 1];
      Accepted(attempts[..|attempts| - 1]) + if a.accepted then [a.frame] else []
  }

  /** Call c's attempts: whether each was accepted. */
  function Fates(attempts: seq<Attempt>, c: uint32): (r: seq<bool>)
    ensures |r| <= |attempts|
  {
    if attempts == [] then []
    else
      var a := attempts[|attempts| - 1];
      Fates(attempts[..|attempts| - 1], c) + if a.frame.hdr.sessionId == c then [a.accepted] else []
  }

  /** The producer numbers call c's frames base, base + 1, base + 2, ..., and does not come to the end of a word. */
  ghost predicate Numbered(attempts: seq<Attempt>, c: uint32, base: nat) {
    && base + |attempts| < TWO_64
    && forall i :: 0 <= i < |attempts| && attempts[i].frame.hdr.sessionId == c ==>
         attempts[i].frame.hdr.seqNo == base + |Fates(attempts[..i], c)|
  }

  /** The numbers of the frames that got into the ring, counting from base. */
  function DeliveredFrom(acc: seq<bool>, base: nat): (d: seq<uint64>)
    requires base + |acc| < TWO_64
    ensures |d| == |Delivered(acc)|
  {
    seq(|Delivered(acc)|, i requires 0 <= i < |Delivered(acc)| => base + Delivered(acc)[i])
  }

  lemma DeliveredFromOneMore(acc: seq<bool>, b: bool, base: nat)
    requires base + |acc| + 1 < TWO_64
    ensures DeliveredFrom(acc + [b], base) == DeliveredFrom(acc, base) + if b then [base + |acc|] else []
  {
    hide Delivered;
    DeliveredOneMore(acc, b);
  }

  /** Gaps do not depend on where the numbering began. */
  lemma {:induction false} GapsFromAnyBase(acc: seq<bool>, base: nat)
    requires base + |acc| < TWO_64
    ensures GapTotal(DeliveredFrom(acc, base)) == GapTotal(Delivered(acc))
  {
    hide Delivered, GapTotal;
    if acc == [] {
      NoGapsYetDelivered();
      assert DeliveredFrom(acc, base) == [];
    } else {
      var rest, b := acc[..|acc| - 1], acc[|acc| - 1];
      assert acc == rest + [b];
      GapsFromAnyBase(rest, base);
      DeliveredOneMore(rest, b);
      DeliveredFromOneMore(rest, b, base);
      var d, e := Delivered(rest), DeliveredFrom(rest, base);
      assert d + [] == d && e + [] == e;
      if b {
        GapTotalOneMore(d, |rest|);
        GapTotalOneMore(e, base + |rest|);
      }
    }
  }

  lemma AcceptedOneMore(attempts: seq<Attempt>, a: Attempt)
    ensures Accepted(attempts + [a]) == Accepted(attempts) + if a.accepted then [a.frame] else []
  {
    assert (attempts + [a])[..|attempts|] == attempts;
  }

  lemma FatesOneMore(attempts: seq<Attempt>, a: Attempt, c: uint32)
    ensures Fates(attempts + [a], c) == Fates(attempts, c) + if a.frame.hdr.sessionId == c then [a.accepted] else []
  {
    assert (attempts + [a])[..|attempts|] == attempts;
  }

  lemma NoAttempts(c: uint32)
    ensures SeqsOf(Accepted([]), c) == [] == Delivered(Fates([], c)) && Fates([], c) == []
  {
  }

  lemma {:induction false} AcceptedAreDelivered(attempts: seq<Attempt>, c: uint32, base: nat)
    requires Numbered(attempts, c, base)
    ensures SeqsOf(Accepted(attempts), c) == DeliveredFrom(Fates(attempts, c), base)
  {
    hide SeqsOf, Accepted, Fates, Delivered, DeliveredFrom;
    if attempts == [] {
      NoAttempts(c);
      NoneFrom(base);
    } else {
      var rest, a := attempts[..|attempts| - 1], attempts[|attempts| - 1];
      var fs, r := Accepted(rest), Fates(rest, c);
      assert attempts == rest + [a];
      assert forall i :: 0 <= i < |rest| ==> rest[..i] == attempts[..i];
      AcceptedAreDelivered(rest, c, base);
      AcceptedOneMore(rest, a);
      FatesOneMore(rest, a, c);
      SeqsOfOneMore(fs, a.frame, c);
      assert fs + [] == fs && r + [] == r;
      if a.frame.hdr.sessionId == c { DeliveredFromOneMore(r, a.accepted, base); }
    }
  }

  lemma NoneFrom(base: nat)
    requires base < TWO_64
    ensures DeliveredFrom([], base) == []
  {
  }

  /** What the session counts of a call's frames is what the producer shed between the first and the last of them. */
  lemma AcceptedGapsAreShed(attempts: seq<Attempt>, c: uint32, base: nat)
    requires Numbered(attempts, c, base)
    ensures GapTotal(SeqsOf(Accepted(attempts), c)) == ShedInside(Fates(attempts, c))
  {
    hide SeqsOf, GapTotal, Delivered, Fates, ShedInside, Accepted, DeliveredFrom;
    AcceptedAreDelivered(attempts, c, base);
    GapsFromAnyBase(Fates(attempts, c), base);
    GapsAreShed(Fates(attempts, c));
  }

  /** Shed frames between first and last delivered, over the calls of dir below `calls`. */
  function SumShed(dir: map<nat, nat>, attempts: seq<Attempt>, calls: nat): nat
    requires |attempts| < TWO_64 && calls <= TWO_32
  {
    if calls == 0 then 0
    else SumShed(dir, attempts, calls - 1) + if calls - 1 in dir then ShedInside(Fates(attempts, calls - 1)) else 0
  }

  /** Every call's frames are numbered on from somewhere. */
  ghost predicate AllNumbered(attempts: seq<Attempt>, base: nat -> nat) {
    forall c: uint32 :: Numbered(attempts, c, base(c))
  }

  lemma {:induction false} SumsAgree(dir: map<nat, nat>, attempts: seq<Attempt>, base: nat -> nat, calls: nat)
    requires |attempts| < TWO_64 && calls <= TWO_32 && AllNumbered(attempts, base)
    ensures SumGaps(dir, Accepted(attempts), calls) == SumShed(dir, attempts, calls)
  {
    hide SeqsOf, GapTotal, Fates, ShedInside, Accepted, Numbered;
    if calls > 0 {
      SumsAgree(dir, attempts, base, calls - 1);
      AcceptedGapsAreShed(attempts, calls - 1, base(calls - 1));
    }
  }

  /** From a fresh table, with nobody expired: the loop's seq_gaps is exactly the number of frames of the calls it
      admitted that the producer shed strictly between the first and the last frame of their call that came through. */
  lemma GapsCountShedFrames(cfg: LoopConfig, max: nat, firstSweepNs: uint64, turns: seq<Turn>, attempts: seq<Attempt>,
                            base: nat -> nat)
    requires |attempts| < TWO_64 && AllNumbered(attempts, base) && Popped(cfg, turns) == Accepted(attempts)
    requires NoExpiry(cfg, Begin(max, firstSweepNs), turns)
    ensures var q := Run(cfg, Begin(max, firstSweepNs), turns);
      && q.seqGaps == SumShed(q.table.dir, attempts, TWO_32)
      && q.frames + q.refused == |Accepted(attempts)|
  {
    hide Run, NoExpiry, SumGaps, Remembers, AllNumbered;
    NothingCounted(max, firstSweepNs);
    RunCountsGaps(cfg, Begin(max, firstSweepNs), [], turns);
    assert [] + Popped(cfg, turns) == Accepted(attempts);
    SumsAgree(Run(cfg, Begin(max, firstSweepNs), turns).table.dir, attempts, base, TWO_32);
  }

  lemma NothingCounted(max: nat, firstSweepNs: uint64)
    ensures Counted(Begin(max, firstSweepNs), [])
  {
    NoGapsYet(map[], TWO_32);
  }

  lemma {:induction false} NoGapsYet(dir: map<nat, nat>, calls: nat)
    requires calls <= TWO_32
    ensures SumGaps(dir, [], calls) == 0
  {
    if calls > 0 { NoGapsYet(dir, calls - 1); }
  }

  // ------------------------------------------------------ producer to lifetime

  /** Call c's first frame, if it comes, opens a session, and no sweep closes that session. */
  ghost predicate LivesOn(cfg: LoopConfig, p: Progress, turns: seq<Turn>, c: uint32)
    requires Coherent(p.table)
    decreases |turns|
  {
    turns == [] || PastDeadline(cfg, turns[0]) ||
    (OneTurnCoherent(cfg, p, turns[0]);
     var q := OneTurn(cfg, p, turns[0]);
     if turns[0].popped.Some? && turns[0].popped.value.hdr.sessionId == c
     then c in q.table.dir && Spared(cfg, q, turns[1..], c)
     else LivesOn(cfg, q, turns[1..], c))
  }

  lemma StillAbsent(cfg: LoopConfig, p: Progress, turn: Turn, c: uint32)
    requires Coherent(p.table) && c !in p.table.dir
    requires turn.popped.Some? ==> turn.popped.value.hdr.sessionId != c
    ensures c !in OneTurn(cfg, p, turn).table.dir
  {
    hide SweepIfDue, Handle, Partitions, Swept, Tagged;
    SweepSpares(cfg, p, turn.loopNs, c);
    SweepIfDueCoherent(cfg, p, turn.loopNs);
    if turn.popped.Some? {
      OthersFrame(cfg, SweepIfDue(cfg, p, turn.loopNs), turn.popped.value, turn.dequeueNs, c);
    }
  }

  /** A call's gaps over its one lifetime, wherever in the run it falls and whatever befalls the others. */
  lemma {:induction false} LifetimeGaps(cfg: LoopConfig, p: Progress, turns: seq<Turn>, c: uint32)
    requires Coherent(p.table) && c !in p.table.dir && LivesOn(cfg, p, turns, c)
    ensures GapsFrom(cfg, p, turns, c) == GapTotal(OwnSeqs(cfg, turns, c))
    decreases |turns|
  {
    hide OneTurn, Partitions, Swept, GapTotal, Spared;
    NoGapsInNothing();
    if turns != [] && !PastDeadline(cfg, turns[0]) {
      OneTurnCoherent(cfg, p, turns[0]);
      if turns[0].popped.Some? && turns[0].popped.value.hdr.sessionId == c {
        LifetimeTelescopes(cfg, p, turns, c);
      } else {
        StillAbsent(cfg, p, turns[0], c);
        LifetimeGaps(cfg, OneTurn(cfg, p, turns[0]), turns[1..], c);
        assert OwnSeqs(cfg, turns, c) == OwnSeqs(cfg, turns[1..], c);
      }
    }
  }

  lemma {:induction false} SeqsConcat(a: seq<AudioFrame>, b: seq<AudioFrame>, c: uint32)
    ensures SeqsOf(a + b, c) == SeqsOf(a, c) + SeqsOf(b, c)
  {
    hide SeqsOf;
    SeqsOfNone(c);
    if b == [] {
      assert a + b == a;
    } else {
      var init, f := b[..|b| - 1], b[|b| - 1];
      SeqsConcat(a, init, c);
      SeqsOfOneMore(a + init, f, c);
      SeqsOfOneMore(init, f, c);
      assert a + init + [f] == a + b && init + [f] == b;
    }
  }

  lemma SeqsOfNone(c: uint32)
    ensures SeqsOf([], c) == []
  {
  }

  lemma {:induction false} OwnSeqsAre(cfg: LoopConfig, turns: seq<Turn>, c: uint32)
    ensures OwnSeqs(cfg, turns, c) == SeqsOf(Popped(cfg, turns), c)
  {
    hide SeqsOf;
    SeqsOfNone(c);
    if turns != [] && !PastDeadline(cfg, turns[0]) {
      OwnSeqsAre(cfg, turns[1..], c);
      var now := if turns[0].popped.Some? then [turns[0].popped.value] else [];
      SeqsConcat(now, Popped(cfg, turns[1..]), c);
      if turns[0].popped.Some? {
        assert now == [] + now;
        SeqsOfOneMore([], turns[0].popped.value, c);
      }
    }
  }

  /** Producer to one lifetime, wherever the producer's numbering of the call has got to: among any refusals and
      expiries, the gaps the loop counts for a call are that call's frames shed between the first and the last that
      came through. */
  lemma LifetimeGapsAreShed(cfg: LoopConfig, p: Progress, turns: seq<Turn>, attempts: seq<Attempt>, c: uint32,
                            base: nat)
    requires Coherent(p.table) && c !in p.table.dir && LivesOn(cfg, p, turns, c)
    requires Numbered(attempts, c, base) && Popped(cfg, turns) == Accepted(attempts)
    ensures GapsFrom(cfg, p, turns, c) == ShedInside(Fates(attempts, c))
  {
    hide LivesOn, GapsFrom, GapTotal, Fates, ShedInside, Coherent, Numbered;
    LifetimeGaps(cfg, p, turns, c);
    OwnSeqsAre(cfg, turns, c);
    AcceptedGapsAreShed(attempts, c, base);
  }
}
