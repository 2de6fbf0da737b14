// The session table as the program keeps it: preallocated sessions, a free list,
// and the probe array, updated in place by probing loops.

module Sessions {
  import opened Words
  import opened Audio
  import opened Chunker
  import opened SessionIndex
  import opened SessionView

  class Session {
    const assembler: ChunkAssembler
    var id: uint32
    var active: bool
    var prevFrameNs: uint64
    var lastFrameNs: uint64
    var lastLoudProduceNs: uint64
    var lastSeq: uint64
    var frames: nat
    var haveLastSeq: bool

    ghost function Repr(): set<object> {
      {this} + assembler.Repr()
    }

    ghost function Val(): SessionVal
      requires assembler.Valid()
      reads Repr()
    {
      SessionVal(id, active, assembler.State(), prevFrameNs, lastFrameNs, lastLoudProduceNs, lastSeq, frames,
                 haveLastSeq)
    }

    constructor (config: ChunkerConfig)
      ensures assembler.Valid() && assembler.cfg == config && Val() == BLANK_SESSION
      ensures fresh(Repr())
    {
      assembler := new ChunkAssembler(config);
      id, active, prevFrameNs, lastFrameNs, lastLoudProduceNs := 0, false, 0, 0, 0;
      lastSeq, frames, haveLastSeq := 0, 0, false;
    }

    /** Hand the session to a new call. The assembler is not touched. */
    method Begin(id: uint32, nowNs: uint64)
      requires assembler.Valid()
      modifies this
      ensures Val() == Opened(old(Val()), id, nowNs)
    {
      this.id := id;
      active := true;
      prevFrameNs := 0;
      lastFrameNs := nowNs;
      lastLoudProduceNs := 0;
      haveLastSeq := false;
      frames := 0;
    }

    method FlushChunk(nowNs: uint64) returns (tail: Option<ChunkEvent>)
      requires assembler.Valid()
      modifies Repr()
      ensures var s := old(Val());
        && Val() == s.(assembler := FlushStep(s.assembler, nowNs).0)
        && tail == EventOf(FlushStep(s.assembler, nowNs).1)
    {
      hide FlushStep;
      tail := assembler.Flush(nowNs);
    }
  }

  /** No two sessions share any storage. */
  ghost predicate Apart(sessions: seq<Session>) {
    forall i, j :: 0 <= i < j < |sessions| ==> sessions[i].Repr() !! sessions[j].Repr()
  }

  ghost function AllRepr(sessions: seq<Session>): set<object> {
    set i, o | 0 <= i < |sessions| && o in sessions[i].Repr() :: o
  }

  ghost predicate AllBuilt(sessions: seq<Session>, cfg: ChunkerConfig) {
    forall i :: 0 <= i < |sessions| ==> sessions[i].assembler.Valid() && sessions[i].assembler.cfg == cfg
  }

  ghost function Vals(sessions: seq<Session>, cfg: ChunkerConfig): (v: seq<SessionVal>)
    requires AllBuilt(sessions, cfg)
    reads AllRepr(sessions)
    ensures |v| == |sessions|
  {
    seq(|sessions|, i requires 0 <= i < |sessions| && AllBuilt(sessions, cfg) reads AllRepr(sessions) =>
      sessions[i].Val())
  }

  lemma ReprOfMore(sessions: seq<Session>, s: Session)
    ensures AllRepr(sessions + [s]) == AllRepr(sessions) + s.Repr()
  {
    var more := sessions + [s];
    forall o | o in AllRepr(sessions) ensures o in AllRepr(more) {
      var i :| 0 <= i < |sessions| && o in sessions[i].Repr();
      assert more[i] == sessions[i];
    }
    forall o | o in s.Repr() ensures o in AllRepr(more) {
      assert more[|sessions|] == s;
    }
  }

  lemma MoreSessions(sessions: seq<Session>, s: Session, config: ChunkerConfig)
    requires Apart(sessions) && AllBuilt(sessions, config) && AllRepr(sessions) !! s.Repr()
    requires s.assembler.Valid() && s.assembler.cfg == config
    ensures AllRepr(sessions + [s]) == AllRepr(sessions) + s.Repr()
    ensures Apart(sessions + [s]) && AllBuilt(sessions + [s], config)
    ensures Vals(sessions + [s], config) == Vals(sessions, config) + [s.Val()]
  {
    ReprOfMore(sessions, s);
    forall i | 0 <= i < |sessions| ensures sessions[i].Repr() !! s.Repr() {
      assert forall o :: o in sessions[i].Repr() ==> o in AllRepr(sessions);
    }
  }

  lemma NoSessions(config: ChunkerConfig)
    ensures Apart([]) && AllBuilt([], config) && AllRepr([]) == {} && Vals([], config) == []
  {
  }

  const NO_SLOT: nat := 0xFFFF_FFFF_FFFF_FFFF

  class SessionTable {
    const cfg: ChunkerConfig
    const hash: nat -> nat
    const maxSessions: nat
    const slots: array<nat>
    const sessions: seq<Session>
    var freeList: seq<nat>
    var tombstones: nat
    var live: nat
    var peakLive: nat
    var opens: nat
    var rejected: nat
    /** Which session each live call id has. */
    ghost var dir: map<nat, nat>

    constructor (max: uint32, config: ChunkerConfig, hash: nat -> nat)
      requires max <= TOMBSTONE
      ensures Valid() && View() == NewTable(if max == 0 then 1 else max)
      ensures cfg == config && this.hash == hash && IsPow2(slots.Length)
      ensures fresh(slots) && fresh(AllRepr(sessions))
    {
      hide Coherent, Indexes, Apart, Kept, Valid, IsPow2, AllRepr;
      var n: nat := if max == 0 then 1 else max;
      var size := NextPow2(2 * n);
      var entries := new nat[size](_ => EMPTY);
      var free := BuildFreeList(n);
      var built := BuildSessions(n, config);
      ghost var vals := Vals(built, config);
      cfg, this.hash, maxSessions, slots, sessions := config, hash, n, entries, built;
      freeList, tombstones, live, peakLive, opens, rejected, dir := free, 0, 0, 0, 0, 0, map[];
      new;
      TableIsNoSession(this, sessions);
      EmptyIndex(hash, slots[..]);
      assert Laid();
      forall i | 0 <= i < n ensures sessions[i].assembler.Valid() && sessions[i].Val() == BLANK_SESSION {
        assert sessions[i].Val() == vals[i];
      }
      AllBlank(sessions, config);
      assert View() == NewTable(n);
      Reestablish();
    }

    /** The least power of two not below value. */
    static method NextPow2(value: nat) returns (result: nat)
      requires 1 <= value <= 2 * TOMBSTONE
      ensures value <= result < NO_SLOT && IsPow2(result)
      ensures result < 2 * value
    {
      result := 1;
      while result < value
        invariant IsPow2(result) && 1 <= result < 2 * value
        decreases value - result
      {
        result := 2 * result;
      }
    }

    static method BuildSessions(n: nat, config: ChunkerConfig) returns (built: seq<Session>)
      ensures |built| == n && Apart(built) && AllBuilt(built, config) && fresh(AllRepr(built))
      ensures Vals(built, config) == Blanks(n)
    {
      hide Apart, AllBuilt, AllRepr, Vals;
      NoSessions(config);
      built := [];
      while |built| < n
        invariant |built| <= n && Apart(built) && AllBuilt(built, config) && fresh(AllRepr(built))
        invariant Vals(built, config) == Blanks(|built|)
      {
        var more := AddSession(built, config);
        built := more;
      }
    }

    static method AddSession(built: seq<Session>, config: ChunkerConfig) returns (more: seq<Session>)
      requires Apart(built) && AllBuilt(built, config)
      ensures |more| == |built| + 1 && Apart(more) && AllBuilt(more, config)
      ensures AllRepr(built) <= AllRepr(more) && fresh(AllRepr(more) - AllRepr(built))
      ensures Vals(more, config) == old(Vals(built, config)) + [BLANK_SESSION]
    {
      hide Apart;
      ghost var vals := Vals(built, config);
      var s := new Session(config);
      forall i | 0 <= i < |built| ensures built[i].Val() == vals[i] {
        assert built[i].Val() == old(built[i].Val());
      }
      assert Vals(built, config) == vals;
      MoreSessions(built, s, config);
      more := built + [s];
    }

    static method BuildFreeList(n: nat) returns (free: seq<nat>)
      ensures free == CountDown(n)
    {
      free := [];
      var i: nat := n;
      while i > 0
        invariant i <= n && free + CountDown(i) == CountDown(n)
      {
        assert free + CountDown(i) == free + [i - 1] + CountDown(i - 1);
        free := free + [i - 1];
        i := i - 1;
      }
    }

    /** What the constructor lays out once and for all. */
    ghost predicate Laid() {
      && 1 <= maxSessions <= TOMBSTONE
      && |sessions| == maxSessions
      && 2 * maxSessions <= slots.Length < NO_SLOT
      && Apart(sessions) && AllBuilt(sessions, cfg)
      && this !in AllRepr(sessions) && slots !in AllRepr(sessions)
    }

    lemma LaidMeans()
      requires Laid()
      ensures 1 <= maxSessions <= TOMBSTONE && |sessions| == maxSessions && 0 < slots.Length
      ensures AllBuilt(sessions, cfg) && this !in AllRepr(sessions) && slots !in AllRepr(sessions)
      ensures allocated(AllRepr(sessions))
    {
    }

    lemma SessionsWithin()
      requires Laid()
      ensures forall s :: s in sessions ==> s in AllRepr(sessions)
    {
      forall s | s in sessions ensures s in AllRepr(sessions) {
        var i :| 0 <= i < |sessions| && sessions[i] == s;
        StorageApart(i);
      }
    }

    /** The invariant at every moment, also in the middle of a sweep. */
    ghost predicate Kept()
      reads this, slots, AllRepr(sessions)
    {
      && Laid()
      && Indexes(hash, slots[..], dir)
      && Count(slots[..], TOMBSTONE) == tombstones
      && Coherent(View())
      && live == |dir|
      && 4 * Count(slots[..], EMPTY) >= slots.Length
    }

    /** The invariant at every call boundary. */
    ghost predicate Valid()
      reads this, slots, AllRepr(sessions)
    {
      Kept() && tombstones * 4 <= slots.Length
    }

    ghost function View(): TableView
      requires Laid()
      reads this, AllRepr(sessions)
    {
      TableView(dir, freeList, Vals(sessions, cfg), peakLive, opens, rejected)
    }

    /** At least a quarter of the slots stay empty: live sessions fill at most half, tombstones a quarter. */
    lemma QuarterEmpty()
      requires Laid() && Indexes(hash, slots[..], dir) && Count(slots[..], TOMBSTONE) == tombstones
      requires |dir| <= maxSessions && tombstones * 4 <= slots.Length
      ensures 4 * Count(slots[..], EMPTY) >= slots.Length
    {
      hide Apart, AllBuilt, Findable;
    }

    /** What every operation relies on, and what the table's own fields say about it. */
    lemma KeptMeans()
      requires Kept()
      ensures Laid() && Indexes(hash, slots[..], dir) && Coherent(View())
      ensures Count(slots[..], EMPTY) > 0 && Count(slots[..], TOMBSTONE) == tombstones && live == |dir|
      ensures forall i :: 0 <= i < maxSessions ==>
        sessions[i].assembler.Valid() && View().sessions[i] == sessions[i].Val()
    {
    }

    lemma ValidMeans()
      requires Valid()
      ensures Kept() && tombstones * 4 <= slots.Length
    {
    }

    /** And back: the invariant from its parts. */
    lemma Reestablish()
      requires Laid() && Indexes(hash, slots[..], dir) && Coherent(View())
      requires Count(slots[..], TOMBSTONE) == tombstones && tombstones * 4 <= slots.Length
      requires live == |dir|
      ensures Valid()
    {
      hide Indexes;
      assert |dir| <= maxSessions by { DirFits(View()); }
      QuarterEmpty();
    }

    lemma ReestablishKept()
      requires Laid() && Indexes(hash, slots[..], dir) && Coherent(View())
      requires Count(slots[..], TOMBSTONE) == tombstones && 4 * Count(slots[..], EMPTY) >= slots.Length
      requires live == |dir|
      ensures Kept()
    {
    }

    lemma KeptIsRoomy()
      requires Kept()
      ensures 4 * Count(slots[..], EMPTY) >= slots.Length
    {
    }

    /** A filled slot names a live session, and names the call's own exactly when the ids agree. */
    lemma OccupantIs(slot: nat, id: nat)
      requires Kept() && slot < slots.Length && !Vacant(slots[slot])
      ensures slots[slot] < maxSessions && sessions[slots[slot]].active
      ensures sessions[slots[slot]].id == id <==> id in dir && dir[id] == slots[slot]
    {
      hide Coherent, Kept, Laid;
      KeptMeans();
      LiveSession(View(), slots[slot], id);
    }

    /** Probe for `id`: its session if it is live, otherwise the slot to insert it at -- the first tombstone on
        the chain if there is one, else the empty slot that ended it. */
    method Search(id: uint32) returns (found: Option<nat>, insertAt: nat, ghost d: nat)
      requires Kept()
      ensures found == if id in dir then Some(dir[id]) else None
      ensures found.None? ==>
        && d < slots.Length
        && insertAt == Slot(Start(hash, id, slots.Length), d, slots.Length)
        && Unbroken(slots[..], Start(hash, id, slots.Length), d) && Vacant(slots[insertAt])
    {
      hide Indexes, Coherent, Missed, Start, Slot, Kept, Apart, AllBuilt;
      KeptMeans();
      ghost var start, n, all := Start(hash, id, slots.Length), slots.Length, slots[..];
      ghost var last := SearchMeetsEmpty(all, start);
      var slot := Start(hash, id, slots.Length);
      var firstTomb: nat := NO_SLOT;
      insertAt := NO_SLOT;
      d := 0;
      NothingMissed(all, start, dir, id);
      var probes := 0;
      while probes < slots.Length
        invariant Kept() && probes <= last < n
        invariant slot == Slot(start, probes, n)
        invariant insertAt == NO_SLOT
        invariant Missed(all, start, dir, id, probes)
        invariant firstTomb != NO_SLOT ==> d < probes && firstTomb == Slot(start, d, n) && all[firstTomb] == TOMBSTONE
        decreases slots.Length - probes
      {
        var occupant := slots[slot];
        if occupant == EMPTY {
          EmptyMeansNotLive(hash, all, dir, id, probes);
          if firstTomb == NO_SLOT { d := probes; }
          MissedIsUnbroken(all, start, dir, id, d, probes);
          insertAt := if firstTomb != NO_SLOT then firstTomb else slot;
          break;
        }
        if occupant == TOMBSTONE {
          if firstTomb == NO_SLOT { firstTomb, d := slot, probes; }
          TombstoneIsNoSession(id);
        } else {
          OccupantIs(slot, id);
          var candidate := sessions[occupant];
          if candidate.active && candidate.id == id {
            return Some(occupant), 0, probes;
          }
        }
        MissedOneMore(all, start, dir, id, probes);
        MissedStopsAtEmpty(all, start, dir, id, probes + 1, last);
        NextSlot(start, probes, n);
        slot := (slot + 1) % slots.Length;
        probes := probes + 1;
      }
      if insertAt == NO_SLOT { insertAt := firstTomb; }
      found := None;
    }

    lemma TombstoneIsNoSession(id: nat)
      requires Kept()
      ensures id in dir ==> dir[id] < TOMBSTONE
    {
      hide Coherent;
    }

    /** Changing one session changes its entry of the view and no other. */
    twostate lemma OnlySession(k: nat)
      requires Laid() && k < maxSessions
      requires forall i :: 0 <= i < maxSessions && i != k ==> sessions[i].Val() == old(sessions[i].Val())
      ensures Vals(sessions, cfg) == old(Vals(sessions, cfg))[k := sessions[k].Val()]
    {
    }

    lemma StorageApart(k: nat)
      requires Laid() && k < maxSessions
      ensures forall i :: 0 <= i < maxSessions && i != k ==> sessions[i].Repr() !! sessions[k].Repr()
      ensures sessions[k].Repr() <= AllRepr(sessions)
    {
    }

    /** A live session was fed: the table is still sound, and the view changed in that session alone. */
    twostate lemma SessionFed(k: nat)
      requires old(Valid()) && k < maxSessions && unchanged(this) && unchanged(slots)
      requires forall i :: 0 <= i < maxSessions && i != k ==> sessions[i].Val() == old(sessions[i].Val())
      requires sessions[k].Val().id == old(sessions[k].Val().id)
      requires sessions[k].Val().active == old(sessions[k].Val().active)
      ensures Valid() && View() == old(View()).(sessions := old(View()).sessions[k := sessions[k].Val()])
    {
      hide Indexes, Coherent, Apart, AllBuilt;
      ViewOf(k);
      OnlySession(k);
      assert View() == old(View()).(sessions := old(View()).sessions[k := sessions[k].Val()]);
      assert old(Coherent(View()) && Indexes(hash, slots[..], dir) && Count(slots[..], TOMBSTONE) == tombstones);
      assert old(View()).sessions[k] == old(sessions[k].Val());
      TouchCoherent(old(View()), k, sessions[k].Val());
      assert slots[..] == old(slots[..]);
      Reestablish();
    }

    /** One lookup per frame: the live session of the call, a newly opened one, or null for a refusal. */
    method Acquire(id: uint32, nowNs: uint64) returns (session: Session?, ghost index: Option<nat>)
      requires Valid()
      modifies this, slots, sessions
      ensures Valid()
      ensures (View(), index) == SessionView.Acquire(old(View()), id, nowNs)
      ensures session == if index == None then null else sessions[index.value]
    {
      hide Indexes, Coherent, Start, Slot, Vals, Apart, AllBuilt, Unbroken, Kept, Valid, AllRepr, Laid;
      ValidMeans();
      KeptMeans();
      LaidMeans();
      FreeInRange(View());
      var found, insertAt, d := Search(id);
      if found.Some? {
        session := sessions[found.value];
        index := found;
        Touch(found.value, id, nowNs);
      } else if insertAt == NO_SLOT || freeList == [] {
        AcquireCoherent(View(), id, nowNs);
        ghost var next := SessionView.Acquire(View(), id, nowNs).0;
        rejected := rejected + 1;
        assert View() == next;
        Reestablish();
        session, index := null, None;
      } else {
        index := Some(freeList[|freeList| - 1]);
        session := Open(id, insertAt, d, nowNs);
      }
    }

    /** The id is live: note that it was heard from. */
    method Touch(i: nat, ghost id: uint32, nowNs: uint64)
      requires Valid() && id in dir && dir[id] == i
      modifies sessions
      ensures Valid() && View() == SessionView.Acquire(old(View()), id, nowNs).0
    {
      hide Indexes, Coherent, Vals, Apart, AllBuilt, AllRepr, Laid;
      KeptMeans();
      LaidMeans();
      FreeInRange(View());
      AcquireCoherent(View(), id, nowNs);
      StorageApart(i);
      sessions[i].lastFrameNs := nowNs;
      OnlySession(i);
    }

    /** The id is not live and there is room: give it the next free session and an entry at `insertAt`. */
    method Open(id: uint32, insertAt: nat, ghost d: nat, nowNs: uint64) returns (session: Session)
      requires Valid() && id !in dir && freeList != []
      requires d < slots.Length && insertAt == Slot(Start(hash, id, slots.Length), d, slots.Length)
      requires Unbroken(slots[..], Start(hash, id, slots.Length), d) && Vacant(slots[insertAt])
      modifies this, slots, sessions
      ensures Valid() && View() == SessionView.Acquire(old(View()), id, nowNs).0
      ensures old(freeList[|freeList| - 1]) < maxSessions && session == sessions[old(freeList[|freeList| - 1])]
    {
      hide Indexes, Coherent, Vals, Apart, AllBuilt, Unbroken, Start, Slot, Kept, Valid, AllRepr, Laid;
      hide Count, Vacant, Opened;
      ValidMeans();
      KeptMeans();
      LaidMeans();
      FreeInRange(View());
      AcquireCoherent(View(), id, nowNs);
      ghost var vals, next := Vals(sessions, cfg), SessionView.Acquire(View(), id, nowNs).0;
      var i := Enter(insertAt, id, d);
      assert Vals(sessions, cfg) == vals;
      ghost var entered := slots[..];
      BeginSession(i, id, nowNs);
      assert Vals(sessions, cfg) == next.sessions && slots[..] == entered;
      assert View() == next;
      assert Indexes(hash, slots[..], dir) && Count(slots[..], TOMBSTONE) == tombstones;
      assert live == |dir|;
      Reestablish();
      session := sessions[i];
    }

    method BeginSession(i: nat, id: uint32, nowNs: uint64)
      requires Laid() && i < maxSessions
      modifies sessions
      ensures Vals(sessions, cfg) == old(Vals(sessions, cfg)[i := Opened(Vals(sessions, cfg)[i], id, nowNs)])
    {
      StorageApart(i);
      sessions[i].Begin(id, nowNs);
      OnlySession(i);
    }

    /** Take the next free session number and write it over an empty slot or a tombstone. */
    method Enter(insertAt: nat, ghost id: uint32, ghost d: nat) returns (i: nat)
      requires 0 < slots.Length && Indexes(hash, slots[..], dir) && Count(slots[..], TOMBSTONE) == tombstones
      requires freeList != [] && live == |dir|
      requires id !in dir && freeList[|freeList| - 1] !in dir.Values && freeList[|freeList| - 1] < TOMBSTONE
      requires d < slots.Length && insertAt == Slot(Start(hash, id, slots.Length), d, slots.Length)
      requires Unbroken(slots[..], Start(hash, id, slots.Length), d) && Vacant(slots[insertAt])
      modifies this, slots
      ensures i == old(freeList[|freeList| - 1]) && freeList == old(freeList[..|freeList| - 1])
      ensures Indexes(hash, slots[..], dir) && Count(slots[..], TOMBSTONE) == tombstones <= old(tombstones)
      ensures dir == old(dir)[id := i] && live == |dir|
      ensures peakLive == Max(old(peakLive), old(live) + 1) && opens == old(opens) + 1 && rejected == old(rejected)
    {
      hide Indexes, Unbroken, Start, Slot, Count, Vacant;
      ghost var was := slots[..];
      i := freeList[|freeList| - 1];
      EntryAdded(hash, was, dir, id, i, d, insertAt);
      if slots[insertAt] == TOMBSTONE { tombstones := tombstones - 1; }
      freeList := freeList[..|freeList| - 1];
      slots[insertAt] := i;
      dir := dir[id := i];
      live := live + 1;
      opens := opens + 1;
      if live > peakLive { peakLive := live; }
      assert slots[..] == was[insertAt := i];
    }

    // ------------------------------------------------------ release

    /** Probe for the entry of a live session. It is always found: the break on an empty slot is never taken. */
    method FindEntry(index: nat, id: uint32) returns (found: bool, slot: nat)
      requires 0 < slots.Length && Indexes(hash, slots[..], dir) && id in dir && dir[id] == index
      ensures found && slot < slots.Length && slots[slot] == index
    {
      hide Indexes, Start, Slot;
      ghost var start, n := Start(hash, id, slots.Length), slots.Length;
      ghost var e := EntryOf(hash, slots[..], dir, id);
      NothingMissed(slots[..], start, map[], id);
      slot := Start(hash, id, slots.Length);
      found := false;
      var probes := 0;
      while probes < slots.Length
        invariant !found && probes <= e && slot == Slot(start, probes, n)
      {
        if slots[slot] == index { found := true; break; }
        if slots[slot] == EMPTY { break; }
        NextSlot(start, probes, n);
        slot := (slot + 1) % slots.Length;
        probes := probes + 1;
      }
    }

    /** Overwrite the session's entry with a tombstone and give its number back. */
    method RemoveEntry(index: nat, id: uint32)
      requires 0 < slots.Length && Indexes(hash, slots[..], dir) && Count(slots[..], TOMBSTONE) == tombstones
      requires id in dir && dir[id] == index && live == |dir|
      modifies this, slots
      ensures Indexes(hash, slots[..], dir) && Count(slots[..], TOMBSTONE) == tombstones
      ensures Count(slots[..], EMPTY) == old(Count(slots[..], EMPTY))
      ensures dir == old(dir) - {id} && freeList == old(freeList) + [index] && live == |dir|
      ensures peakLive == old(peakLive) && opens == old(opens) && rejected == old(rejected)
    {
      hide Indexes, Count;
      ghost var was := slots[..];
      var found, slot := FindEntry(index, id);
      EntryRemoved(hash, was, dir, id, slot);
      if found {
        slots[slot] := TOMBSTONE;
        tombstones := tombstones + 1;
      }
      assert slots[..] == was[slot := TOMBSTONE];
      freeList := freeList + [index];
      if live > 0 { live := live - 1; }
      dir := dir - {id};
    }

    method Release(i: nat)
      requires Kept() && i < maxSessions && sessions[i].active
      modifies this, slots, sessions
      ensures Kept() && View() == SessionView.Release(old(View()), i)
    {
      hide Indexes, Coherent, Vals, Apart, AllBuilt, Kept, AllRepr, Laid;
      KeptMeans();
      KeptIsRoomy();
      LaidMeans();
      ghost var vals, next := Vals(sessions, cfg), SessionView.Release(View(), i);
      assert vals[i] == sessions[i].Val();
      ReleaseCoherent(View(), i);
      RemoveEntry(i, sessions[i].id);
      assert Vals(sessions, cfg) == vals;
      ghost var removed := slots[..];
      Retire(i);
      assert Vals(sessions, cfg) == next.sessions && slots[..] == removed;
      assert View() == next;
      assert Indexes(hash, slots[..], dir) && Count(slots[..], TOMBSTONE) == tombstones;
      assert live == |dir|;
      ReestablishKept();
    }

    method Retire(i: nat)
      requires Laid() && i < maxSessions
      modifies sessions
      ensures Vals(sessions, cfg) == old(Vals(sessions, cfg)[i := Vals(sessions, cfg)[i].(active := false)])
    {
      StorageApart(i);
      sessions[i].active := false;
      OnlySession(i);
    }

    /** The assembler's flush, as a change to the view. */
    method FlushSession(i: nat, nowNs: uint64) returns (tail: Option<ChunkEvent>)
      requires Laid() && i < maxSessions
      modifies AllRepr(sessions)
      ensures var s := old(Vals(sessions, cfg)[i]);
        && Vals(sessions, cfg) == old(Vals(sessions, cfg))[i := s.(assembler := FlushStep(s.assembler, nowNs).0)]
        && tail == EventOf(FlushStep(s.assembler, nowNs).1)
    {
      hide FlushStep, AllRepr, Apart;
      StorageApart(i);
      tail := sessions[i].FlushChunk(nowNs);
      OnlySession(i);
    }

    /** Flush the session's open chunk, if any, and release it. */
    method CloseSession(i: nat, nowNs: uint64) returns (tail: seq<ChunkEvent>)
      requires Kept() && i < maxSessions && sessions[i].active
      modifies this, slots, AllRepr(sessions)
      ensures Kept() && (View(), tail) == SweepOne(old(View()), i, nowNs, None)
    {
      hide Indexes, Coherent, Vals, Apart, AllBuilt, Kept, FlushStep, SessionView.Release, AllRepr, Laid;
      KeptMeans();
      LaidMeans();
      SessionsWithin();
      KeptIsRoomy();
      ghost var t := View();
      assert t.sessions[i] == sessions[i].Val();
      ghost var flushed := t.sessions[i].(assembler := FlushStep(t.sessions[i].assembler, nowNs).0);
      TouchCoherent(t, i, flushed);
      ghost var entries := slots[..];
      var event := FlushSession(i, nowNs);
      assert slots[..] == entries && View() == t.(sessions := t.sessions[i := flushed]);
      ReestablishKept();
      KeptMeans();
      assert View().sessions[i] == sessions[i].Val();
      tail := if event.Some? then [event.value.(sessionId := sessions[i].id)] else [];
      StorageApart(i);
      Release(i);
    }

    // ------------------------------------------------------ sweeps

    /** One turn of a sweep's loop. */
    method Visit(i: nat, nowNs: uint64, idleNs: Option<uint64>) returns (tail: seq<ChunkEvent>)
      requires Kept() && i < maxSessions
      modifies this, slots, AllRepr(sessions)
      ensures Kept() && (View(), tail) == SweepOne(old(View()), i, nowNs, idleNs)
    {
      hide Indexes, Coherent, Vals, Apart, AllBuilt, Kept, SweepOne;
      KeptMeans();
      assert View().sessions[i] == sessions[i].Val();
      SweepTouches(View(), i, nowNs, idleNs);
      if !sessions[i].active || (idleNs.Some? && Sub64(nowNs, sessions[i].lastFrameNs) < idleNs.value) {
        return [];
      }
      tail := CloseSession(i, nowNs);
    }

    method VisitAll(nowNs: uint64, idleNs: Option<uint64>) returns (emitted: seq<ChunkEvent>)
      requires Valid()
      modifies this, slots, AllRepr(sessions)
      ensures Kept() && (View(), emitted) == Sweep(old(View()), maxSessions, nowNs, idleNs)
    {
      hide Indexes, Coherent, Vals, Apart, AllBuilt, Kept, SweepOne;
      ValidMeans();
      KeptMeans();
      emitted := [];
      var i := 0;
      while i < maxSessions
        invariant i <= maxSessions && Kept()
        invariant (View(), emitted) == Sweep(old(View()), i, nowNs, idleNs)
      {
        var tail := Visit(i, nowNs, idleNs);
        emitted := emitted + tail;
        i := i + 1;
      }
    }

    /** Close the sessions that have been quiet for idleNs. */
    method ExpireIdle(nowNs: uint64, idleNs: uint64) returns (emitted: seq<ChunkEvent>)
      requires Valid()
      modifies this, slots, AllRepr(sessions)
      ensures Valid() && (View(), emitted) == Sweep(old(View()), maxSessions, nowNs, Some(idleNs))
    {
      hide Kept, Valid;
      emitted := VisitAll(nowNs, Some(idleNs));
      MaybeRebuild();
    }

    /** Close every session. */
    method FlushAll(nowNs: uint64) returns (emitted: seq<ChunkEvent>)
      requires Valid()
      modifies this, slots, AllRepr(sessions)
      ensures Valid() && (View(), emitted) == Sweep(old(View()), maxSessions, nowNs, None)
    {
      hide Kept, Valid;
      emitted := VisitAll(nowNs, None);
      MaybeRebuild();
    }

    /** Rebuild the probe array when more than a quarter of it is tombstones. */
    method MaybeRebuild()
      requires Kept()
      modifies this`tombstones, slots
      ensures Valid() && View() == old(View())
    {
      hide Indexes, Coherent, Vals, Apart, AllBuilt, Kept, Valid, AllRepr, Laid;
      KeptMeans();
      LaidMeans();
      if tombstones * 4 <= slots.Length {
        Reestablish();
        return;
      }
      ghost var view := View();
      Clear();
      Refill();
      assert View() == view;
      Reestablish();
    }

    method Clear()
      requires 0 < slots.Length
      modifies this`tombstones, slots
      ensures tombstones == 0 == Count(slots[..], TOMBSTONE)
      ensures Indexes(hash, slots[..], map[])
    {
      hide Indexes;
      forall s | 0 <= s < slots.Length { slots[s] := EMPTY; }
      tombstones := 0;
      EmptyIndex(hash, slots[..]);
    }

    method Refill()
      requires Laid() && Coherent(View())
      requires Indexes(hash, slots[..], map[]) && Count(slots[..], TOMBSTONE) == 0
      modifies slots
      ensures Indexes(hash, slots[..], dir) && Count(slots[..], TOMBSTONE) == 0
    {
      hide Indexes, Coherent, Vals, Apart, AllBuilt, AllRepr, Laid;
      LaidMeans();
      ghost var view := View();
      assert Below(dir, 0) == map[];
      var i := 0;
      while i < maxSessions
        invariant i <= maxSessions && View() == view
        invariant Indexes(hash, slots[..], Below(dir, i)) && Count(slots[..], TOMBSTONE) == 0
      {
        ViewOf(i);
        if sessions[i].active {
          ActiveIsLive(view, i);
          Reinsert(i, sessions[i].id);
        } else {
          NotLive(view, i);
          BelowSkips(dir, i);
        }
        i := i + 1;
      }
      AllBelow(view);
    }

    lemma ViewOf(i: nat)
      requires Laid() && i < maxSessions
      ensures sessions[i].assembler.Valid() && View().sessions[i] == sessions[i].Val()
    {
    }

    /** Enter session i of call `id` into the rebuilt part of the array. The probe loop is unbounded in the
        program; it ends because the entries so far leave an empty slot. */
    method Reinsert(i: nat, id: uint32)
      requires Laid() && i < maxSessions && Coherent(View()) && id in dir && dir[id] == i
      requires Indexes(hash, slots[..], Below(dir, i)) && Count(slots[..], TOMBSTONE) == 0
      modifies slots
      ensures Indexes(hash, slots[..], Below(dir, i + 1)) && Count(slots[..], TOMBSTONE) == 0
    {
      hide Indexes, Coherent, Start, Slot, Unbroken, Missed, Count, AllRepr, Laid, Below;
      LaidMeans();
      ghost var was, start, n, some := slots[..], Start(hash, id, slots.Length), slots.Length, Below(dir, i);
      RoomToRebuild(i, id);
      ghost var last := SearchMeetsEmpty(was, start);
      NothingMissed(was, start, map[], id);
      var slot := Start(hash, id, slots.Length);
      ghost var d := 0;
      while slots[slot] != EMPTY
        invariant d <= last && slot == Slot(start, d, n) && slots[..] == was
        invariant Missed(was, start, map[], id, d)
        decreases last - d
      {
        MissedOneMore(was, start, map[], id, d);
        MissedStopsAtEmpty(was, start, map[], id, d + 1, last);
        NextSlot(start, d, n);
        slot := (slot + 1) % slots.Length;
        d := d + 1;
      }
      MissedIsUnbroken(was, start, map[], id, d, d);
      EntryAdded(hash, was, some, id, i, d, slot);
      slots[slot] := i;
      assert slots[..] == was[slot := i];
    }

    lemma RoomToRebuild(i: nat, id: nat)
      requires Laid() && i < maxSessions && Coherent(View()) && id in dir && dir[id] == i
      requires Indexes(hash, slots[..], Below(dir, i)) && Count(slots[..], TOMBSTONE) == 0
      ensures Count(slots[..], EMPTY) > 0
      ensures Below(dir, i + 1) == Below(dir, i)[id := i] && id !in Below(dir, i) && i !in Below(dir, i).Values
    {
      BelowGrows(dir, i, id);
      DirFits(View());
    }
  }

  lemma ActiveIsLive(t: TableView, i: nat)
    requires Coherent(t) && i < |t.sessions| && t.sessions[i].active
    ensures t.sessions[i].id in t.dir && t.dir[t.sessions[i].id] == i
  {
    var c :| c in t.dir && t.dir[c] == i;
  }

  lemma NotLive(t: TableView, i: nat)
    requires Coherent(t) && i < |t.sessions| && !t.sessions[i].active
    ensures i !in t.dir.Values
  {
  }

  lemma AllBelow(t: TableView)
    requires Coherent(t)
    ensures Below(t.dir, |t.sessions|) == t.dir
  {
  }

  lemma TableIsNoSession(t: SessionTable, sessions: seq<Session>)
    ensures t !in AllRepr(sessions)
  {
  }

  lemma AllBlank(sessions: seq<Session>, config: ChunkerConfig)
    requires AllBuilt(sessions, config)
    requires forall i :: 0 <= i < |sessions| ==> sessions[i].assembler.Valid() && sessions[i].Val() == BLANK_SESSION
    ensures Vals(sessions, config) == Blanks(|sessions|)
  {
  }

  lemma DirFits(t: TableView)
    requires Coherent(t)
    ensures |t.dir| <= |t.sessions|
  {
  }

  lemma NothingMissed(slots: seq<nat>, start: nat, dir: map<nat, nat>, id: nat)
    requires start < |slots|
    ensures Missed(slots, start, dir, id, 0) && Slot(start, 0, |slots|) == start
  {
  }

  lemma MissedIsUnbroken(slots: seq<nat>, start: nat, dir: map<nat, nat>, id: nat, d: nat, e: nat)
    requires start < |slots| && d <= e <= |slots| && Missed(slots, start, dir, id, e)
    ensures Unbroken(slots, start, d)
  {
  }
}
