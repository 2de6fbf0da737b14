// The session table as its callers see it: a bounded map from call ids to
// sessions, with the order in which free sessions are handed out.

module SessionView {
  import opened Words
  import opened Audio
  import opened Chunker
  import opened SessionIndex

  datatype SessionVal = SessionVal(
    id: uint32,
    active: bool,
    assembler: AssemblerState,
    prevFrameNs: uint64,
    lastFrameNs: uint64,
    lastLoudProduceNs: uint64,
    lastSeq: uint64,
    frames: nat,
    haveLastSeq: bool)

  datatype TableView = TableView(
    dir: map<nat, nat>,
    free: seq<nat>,
    sessions: seq<SessionVal>,
    peak: nat,
    opens: nat,
    rejected: nat)

  const BLANK_SESSION := SessionVal(0, false, FRESH, 0, 0, 0, 0, 0, false)

  /** Low session numbers are handed out first. */
  function CountDown(n: nat): (s: seq<nat>)
    ensures |s| == n && forall i :: 0 <= i < n ==> s[i] == n - 1 - i
  {
    if n == 0 then [] else [n - 1] + CountDown(n - 1)
  }

  function Blanks(n: nat): (s: seq<SessionVal>)
    ensures |s| == n && forall i :: 0 <= i < n ==> s[i] == BLANK_SESSION
  {
    seq(n, _ => BLANK_SESSION)
  }

  /** A table nobody has called yet. */
  function NewTable(max: nat): (t: TableView)
    ensures Coherent(t)
  {
    AllFree(max);
    TableView(map[], CountDown(max), Blanks(max), 0, 0, 0)
  }

  /** What `open` writes: everything but the assembler and the last sequence number is reset. */
  function Opened(s: SessionVal, id: uint32, nowNs: uint64): SessionVal {
    s.(id := id, active := true, prevFrameNs := 0, lastFrameNs := nowNs, lastLoudProduceNs := 0,
       haveLastSeq := false, frames := 0)
  }

  /** A session is active exactly when the directory leads to it. */
  ghost predicate ActiveIfLive(dir: map<nat, nat>, sessions: seq<SessionVal>) {
    forall i :: 0 <= i < |sessions| ==> (sessions[i].active <==> i in dir.Values)
  }

  /** The directory leads from a session's own id to it. */
  ghost predicate OwnIds(dir: map<nat, nat>, sessions: seq<SessionVal>) {
    forall id :: id in dir ==> dir[id] < |sessions| && sessions[dir[id]].id == id
  }

  ghost predicate Tied(dir: map<nat, nat>, sessions: seq<SessionVal>) {
    ActiveIfLive(dir, sessions) && OwnIds(dir, sessions)
  }

  /** The directory, free list and sessions fit together. */
  ghost predicate Coherent(t: TableView) {
    && Injective(t.dir)
    && Partitions(t.free, t.dir, |t.sessions|)
    && Tied(t.dir, t.sessions)
    && |t.dir| <= t.peak <= |t.sessions|
  }

  function Acquire(t: TableView, id: uint32, nowNs: uint64): (TableView, Option<nat>)
    requires forall c :: c in t.dir ==> t.dir[c] < |t.sessions|
    requires forall k :: 0 <= k < |t.free| ==> t.free[k] < |t.sessions|
  {
    if id in t.dir then
      var i := t.dir[id];
      (t.(sessions := t.sessions[i := t.sessions[i].(lastFrameNs := nowNs)]), Some(i))
    else if t.free == [] then
      (t.(rejected := t.rejected + 1), None)
    else
      var i := t.free[|t.free| - 1];
      (TableView(t.dir[id := i], t.free[..|t.free| - 1], t.sessions[i := Opened(t.sessions[i], id, nowNs)],
                 Max(t.peak, |t.dir| + 1), t.opens + 1, t.rejected),
       Some(i))
  }

  function Release(t: TableView, i: nat): TableView
    requires i < |t.sessions|
  {
    t.(dir := t.dir - {t.sessions[i].id}, free := t.free + [i],
       sessions := t.sessions[i := t.sessions[i].(active := false)])
  }

  /** Whether a sweep closes the session: every live one, or every one silent for idleNs. */
  predicate Swept(s: SessionVal, nowNs: uint64, idleNs: Option<uint64>) {
    s.active && (idleNs.Some? ==> Sub64(nowNs, s.lastFrameNs) >= idleNs.value)
  }

  function SweepOne(t: TableView, i: nat, nowNs: uint64, idleNs: Option<uint64>): (TableView, seq<ChunkEvent>)
    requires i < |t.sessions|
  {
    var s := t.sessions[i];
    if !Swept(s, nowNs, idleNs) then (t, [])
    else
      var (a, c) := FlushStep(s.assembler, nowNs);
      (Release(t.(sessions := t.sessions[i := s.(assembler := a)]), i),
       if c.Some? then [c.value.event.(sessionId := s.id)] else [])
  }

  /** The sweep after visiting the first n sessions. */
  function Sweep(t: TableView, n: nat, nowNs: uint64, idleNs: Option<uint64>): (r: (TableView, seq<ChunkEvent>))
    requires n <= |t.sessions|
    ensures |r.0.sessions| == |t.sessions|
    ensures forall i :: n <= i < |t.sessions| ==> r.0.sessions[i] == t.sessions[i]
    ensures r.0.peak == t.peak && r.0.opens == t.opens && r.0.rejected == t.rejected
  {
    if n == 0 then (t, [])
    else
      var (u, events) := Sweep(t, n - 1, nowNs, idleNs);
      var (v, more) := SweepOne(u, n - 1, nowNs, idleNs);
      (v, events + more)
  }

  /** What a sweep does to a session it closes does not depend on why it closes it. */
  lemma SweepTouches(t: TableView, i: nat, nowNs: uint64, idleNs: Option<uint64>)
    requires i < |t.sessions|
    ensures SweepOne(t, i, nowNs, idleNs) ==
      if Swept(t.sessions[i], nowNs, idleNs) then SweepOne(t, i, nowNs, None) else (t, [])
  {
  }

  // ------------------------------------------------------ a bounded map

  lemma AllFree(max: nat)
    ensures Partitions(CountDown(max), map[], max)
  {
    forall i | 0 <= i < max ensures i in CountDown(max) {
      assert CountDown(max)[max - 1 - i] == i;
    }
  }

  /** Sessions may change in anything but id and liveness. */
  lemma TouchKeepsTied(dir: map<nat, nat>, sessions: seq<SessionVal>, i: nat, s: SessionVal)
    requires Tied(dir, sessions) && i < |sessions|
    requires s.id == sessions[i].id && s.active == sessions[i].active
    ensures Tied(dir, sessions[i := s])
  {
  }

  lemma TouchCoherent(t: TableView, i: nat, s: SessionVal)
    requires Coherent(t) && i < |t.sessions|
    requires s.id == t.sessions[i].id && s.active == t.sessions[i].active
    ensures Coherent(t.(sessions := t.sessions[i := s]))
  {
    hide Tied, Partitions;
    TouchKeepsTied(t.dir, t.sessions, i, s);
  }

  lemma OpenTies(dir: map<nat, nat>, sessions: seq<SessionVal>, id: uint32, i: nat, s: SessionVal)
    requires Tied(dir, sessions) && i < |sessions| && id !in dir && i !in dir.Values
    requires s.id == id && s.active
    ensures Tied(dir[id := i], sessions[i := s])
  {
    hide ActiveIfLive, Injective;
    assert ActiveIfLive(dir[id := i], sessions[i := s]) by { OpenMakesActive(dir, sessions, id, i, s); }
  }

  lemma OpenMakesActive(dir: map<nat, nat>, sessions: seq<SessionVal>, id: uint32, i: nat, s: SessionVal)
    requires ActiveIfLive(dir, sessions) && i < |sessions| && id !in dir && i !in dir.Values && s.active
    ensures ActiveIfLive(dir[id := i], sessions[i := s])
  {
    hide Injective;
    ValuesAfterOpen(dir, id, i);
  }

  lemma CloseTies(dir: map<nat, nat>, sessions: seq<SessionVal>, i: nat, s: SessionVal)
    requires Tied(dir, sessions) && i < |sessions| && sessions[i].active && Injective(dir)
    requires !s.active
    ensures sessions[i].id in dir && dir[sessions[i].id] == i
    ensures Tied(dir - {sessions[i].id}, sessions[i := s])
  {
    hide Injective;
    var id := sessions[i].id;
    ActiveIsOwn(dir, sessions, i);
    assert ActiveIfLive(dir - {id}, sessions[i := s]) by { CloseMakesIdle(dir, sessions, id, i, s); }
    assert OwnIds(dir - {id}, sessions[i := s]) by { CloseKeepsIds(dir, sessions, id, i, s); }
  }

  lemma ActiveIsOwn(dir: map<nat, nat>, sessions: seq<SessionVal>, i: nat)
    requires Tied(dir, sessions) && i < |sessions| && sessions[i].active
    ensures sessions[i].id in dir && dir[sessions[i].id] == i
  {
    assert i in dir.Values;
    var c :| c in dir && dir[c] == i;
  }

  lemma CloseMakesIdle(dir: map<nat, nat>, sessions: seq<SessionVal>, id: nat, i: nat, s: SessionVal)
    requires ActiveIfLive(dir, sessions) && i < |sessions| && id in dir && dir[id] == i && Injective(dir) && !s.active
    ensures ActiveIfLive(dir - {id}, sessions[i := s])
  {
    hide Injective;
    ValuesAfterClose(dir, id);
  }

  lemma CloseKeepsIds(dir: map<nat, nat>, sessions: seq<SessionVal>, id: nat, i: nat, s: SessionVal)
    requires OwnIds(dir, sessions) && i < |sessions| && id in dir && dir[id] == i && Injective(dir)
    ensures OwnIds(dir - {id}, sessions[i := s])
  {
  }

  /** The parts of the invariant once a call has been given the last free session. */
  lemma OpenParts(t: TableView, id: uint32, i: nat, s: SessionVal)
    requires Coherent(t) && id !in t.dir && t.free != [] && i == t.free[|t.free| - 1]
    requires i < |t.sessions| && i !in t.dir.Values && s.id == id && s.active
    ensures Injective(t.dir[id := i]) && Partitions(t.free[..|t.free| - 1], t.dir[id := i], |t.sessions|)
    ensures Tied(t.dir[id := i], t.sessions[i := s])
    ensures |t.dir[id := i]| == |t.dir| + 1 <= |t.sessions|
  {
    FreeLeavesRoom(t);
    hide Tied, Partitions, Injective;
    OpenTies(t.dir, t.sessions, id, i, s);
    TakeFree(t.free, t.dir, |t.sessions|, id);
    ValuesAfterOpen(t.dir, id, i);
  }

  lemma AcquireCoherent(t: TableView, id: uint32, nowNs: uint64)
    requires Coherent(t)
    ensures Coherent(Acquire(t, id, nowNs).0)
  {
    hide Tied, Partitions, Injective, Opened;
    FreeInRange(t);
    if id in t.dir {
      var i := t.dir[id];
      TouchCoherent(t, i, t.sessions[i].(lastFrameNs := nowNs));
    } else if t.free != [] {
      var i := t.free[|t.free| - 1];
      OpenedFor(t.sessions[i], id, nowNs);
      OpenParts(t, id, i, Opened(t.sessions[i], id, nowNs));
    }
  }

  lemma OpenedFor(s: SessionVal, id: uint32, nowNs: uint64)
    ensures Opened(s, id, nowNs).id == id && Opened(s, id, nowNs).active
  {
  }

  /** Looking up one call never gives another's session. */
  lemma AcquireOther(t: TableView, id: uint32, nowNs: uint64, c: nat)
    requires Coherent(t) && id != c
    ensures var (u, i) := Acquire(t, id, nowNs);
      && (c in u.dir <==> c in t.dir)
      && (c in t.dir ==>
           && u.dir[c] == t.dir[c] < |u.sessions|
           && u.sessions[u.dir[c]] == t.sessions[t.dir[c]]
           && i != Some(u.dir[c]))
      && (i.Some? ==> i.value < |u.sessions| && u.sessions[i.value].id == id)
  {
  }

  /** A session the directory leads to is live, and belongs to `id` exactly when the ids agree. */
  lemma LiveSession(t: TableView, i: nat, id: nat)
    requires Coherent(t) && i in t.dir.Values
    ensures i < |t.sessions| && t.sessions[i].active
    ensures t.sessions[i].id == id <==> id in t.dir && t.dir[id] == i
  {
    var c :| c in t.dir && t.dir[c] == i;
  }

  lemma FreeInRange(t: TableView)
    requires Coherent(t)
    ensures forall k :: 0 <= k < |t.free| ==> t.free[k] < |t.sessions| && t.free[k] !in t.dir.Values
    ensures forall c :: c in t.dir ==> t.dir[c] < |t.sessions|
  {
  }

  lemma FreeLeavesRoom(t: TableView)
    requires Coherent(t)
    ensures |t.free| + |t.dir| == |t.sessions|
  {
  }

  lemma ReleaseCoherent(t: TableView, i: nat)
    requires Coherent(t) && i < |t.sessions| && t.sessions[i].active
    ensures t.sessions[i].id in t.dir && t.dir[t.sessions[i].id] == i
    ensures Coherent(Release(t, i))
  {
    hide Tied, Partitions;
    var id := t.sessions[i].id;
    CloseTies(t.dir, t.sessions, i, t.sessions[i].(active := false));
    GiveFree(t.free, t.dir, |t.sessions|, id);
    ValuesAfterClose(t.dir, id);
  }

  lemma SweepOneCoherent(t: TableView, i: nat, nowNs: uint64, idleNs: Option<uint64>)
    requires Coherent(t) && i < |t.sessions|
    ensures Coherent(SweepOne(t, i, nowNs, idleNs).0)
  {
    hide Tied, Partitions;
    var s := t.sessions[i];
    if Swept(s, nowNs, idleNs) {
      var flushed := s.(assembler := FlushStep(s.assembler, nowNs).0);
      var u := t.(sessions := t.sessions[i := flushed]);
      TouchKeepsTied(t.dir, t.sessions, i, flushed);
      ReleaseCoherent(u, i);
    }
  }

  lemma {:induction false} SweepCoherent(t: TableView, n: nat, nowNs: uint64, idleNs: Option<uint64>)
    requires Coherent(t) && n <= |t.sessions|
    ensures Coherent(Sweep(t, n, nowNs, idleNs).0)
  {
    hide SweepOne, Coherent;
    if n > 0 {
      SweepCoherent(t, n - 1, nowNs, idleNs);
      SweepOneCoherent(Sweep(t, n - 1, nowNs, idleNs).0, n - 1, nowNs, idleNs);
    }
  }
}
