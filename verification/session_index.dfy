// The probe array of the session table as a value: an open-addressed index
// from call ids to session numbers, with linear probing and tombstones, and the
// invariant that makes deletion by tombstone safe.

module SessionIndex {
  import opened Words

  const EMPTY: nat := 0xFFFF_FFFF
  const TOMBSTONE: nat := 0xFFFF_FFFE

  /** Slot at distance d from `start`, going round the array. */
  function Slot(start: nat, d: nat, n: nat): (s: nat)
    requires start < n && d < n
    ensures s < n
  {
    if start + d < n then start + d else start + d - n
  }

  function Start(hash: nat -> nat, id: nat, n: nat): (s: nat)
    requires 0 < n
    ensures s < n
  {
    hash(id) % n
  }

  /** `(slot + 1) & slot_mask_` walks one step along the chain. */
  lemma NextSlot(start: nat, d: nat, n: nat)
    requires start < n && d < n
    ensures d + 1 < n ==> (Slot(start, d, n) + 1) % n == Slot(start, d + 1, n)
    ensures (Slot(start, d, n) + 1) % n < n
  {
    var s := Slot(start, d, n);
    if s + 1 == n {
      DivModUnique(s + 1, n, 1, 0);
    } else {
      DivModUnique(s + 1, n, 0, s + 1);
    }
  }

  /** Every slot lies on every chain. */
  function Distance(start: nat, s: nat, n: nat): (d: nat)
    requires start < n && s < n
    ensures d < n && Slot(start, d, n) == s
  {
    if start <= s then s - start else s + n - start
  }

  /** No empty slot at a distance less than d: a probe from `start` gets that far. */
  ghost predicate Unbroken(slots: seq<nat>, start: nat, d: nat)
    requires start < |slots| && d <= |slots|
  {
    forall k :: 0 <= k < d ==> slots[Slot(start, k, |slots|)] != EMPTY
  }

  ghost predicate ReachesAt(slots: seq<nat>, start: nat, index: nat, d: nat)
    requires start < |slots|
  {
    d < |slots| && slots[Slot(start, d, |slots|)] == index && Unbroken(slots, start, d)
  }

  ghost predicate Reaches(slots: seq<nat>, start: nat, index: nat)
    requires start < |slots|
  {
    exists d: nat :: ReachesAt(slots, start, index, d)
  }

  function Count(slots: seq<nat>, v: nat): nat {
    multiset(slots)[v]
  }

  ghost predicate Injective(dir: map<nat, nat>) {
    forall a, b :: a in dir && b in dir && dir[a] == dir[b] ==> a == b
  }

  ghost predicate NoDuplicates(s: seq<nat>) {
    forall i, j :: 0 <= i < j < |s| ==> s[i] != s[j]
  }

  /** Every live call is found by probing from its hash. */
  ghost predicate Findable(hash: nat -> nat, slots: seq<nat>, dir: map<nat, nat>)
    requires 0 < |slots|
  {
    forall id :: id in dir ==> dir[id] < TOMBSTONE && Reaches(slots, Start(hash, id, |slots|), dir[id])
  }

  predicate Vacant(v: nat) { v == EMPTY || v == TOMBSTONE }

  /** Every entry names a live session. */
  ghost predicate OnlyLive(slots: seq<nat>, dir: map<nat, nat>) {
    forall s :: 0 <= s < |slots| ==> Vacant(slots[s]) || slots[s] in dir.Values
  }

  /** No session is entered twice. */
  ghost predicate EnteredOnce(slots: seq<nat>) {
    forall s, t :: 0 <= s < t < |slots| && slots[s] == slots[t] ==> Vacant(slots[s])
  }

  ghost predicate Tallied(slots: seq<nat>, dir: map<nat, nat>) {
    Count(slots, EMPTY) + Count(slots, TOMBSTONE) + |dir| == |slots|
  }

  /** `slots` indexes exactly the calls of `dir`, whatever the hash sends where. */
  ghost predicate Indexes(hash: nat -> nat, slots: seq<nat>, dir: map<nat, nat>) {
    && 0 < |slots|
    && Injective(dir)
    && Findable(hash, slots, dir)
    && OnlyLive(slots, dir)
    && EnteredOnce(slots)
    && Tallied(slots, dir)
  }

  /** The free list and the live sessions split the session numbers 0..max. */
  ghost predicate Partitions(free: seq<nat>, dir: map<nat, nat>, max: nat) {
    && NoDuplicates(free)
    && (forall k :: 0 <= k < |free| ==> free[k] < max && free[k] !in dir.Values)
    && (forall i :: i in dir.Values ==> i < max)
    && (forall i :: 0 <= i < max ==> i in free || i in dir.Values)
    && |free| + |dir| == max
  }

  // ------------------------------------------------------ lookup

  /** A live call is met before the first empty slot of its chain. */
  lemma MetBeforeEmpty(hash: nat -> nat, slots: seq<nat>, dir: map<nat, nat>, id: nat, d: nat) returns (e: nat)
    requires Indexes(hash, slots, dir) && d < |slots| && id in dir
    requires slots[Slot(Start(hash, id, |slots|), d, |slots|)] == EMPTY
    ensures e < d && slots[Slot(Start(hash, id, |slots|), e, |slots|)] == dir[id]
  {
    e :| ReachesAt(slots, Start(hash, id, |slots|), dir[id], e);
  }

  /** The first d slots of the chain from `id`: none empty, none holding the call's own session. */
  ghost predicate Missed(slots: seq<nat>, start: nat, dir: map<nat, nat>, id: nat, d: nat)
    requires start < |slots| && d <= |slots|
  {
    && Unbroken(slots, start, d)
    && (id in dir ==> forall k :: 0 <= k < d ==> slots[Slot(start, k, |slots|)] != dir[id])
  }

  lemma EmptyMeansNotLive(hash: nat -> nat, slots: seq<nat>, dir: map<nat, nat>, id: nat, d: nat)
    requires Indexes(hash, slots, dir) && d < |slots|
    requires Missed(slots, Start(hash, id, |slots|), dir, id, d)
    requires slots[Slot(Start(hash, id, |slots|), d, |slots|)] == EMPTY
    ensures id !in dir
  {
    if id in dir { var e := MetBeforeEmpty(hash, slots, dir, id, d); }
  }

  lemma MissedOneMore(slots: seq<nat>, start: nat, dir: map<nat, nat>, id: nat, d: nat)
    requires start < |slots| && d < |slots| && Missed(slots, start, dir, id, d)
    requires slots[Slot(start, d, |slots|)] != EMPTY
    requires id in dir ==> slots[Slot(start, d, |slots|)] != dir[id]
    ensures Missed(slots, start, dir, id, d + 1)
  {
  }

  /** The search cannot pass an empty slot. */
  lemma MissedStopsAtEmpty(slots: seq<nat>, start: nat, dir: map<nat, nat>, id: nat, d: nat, e: nat)
    requires start < |slots| && d <= |slots| && Missed(slots, start, dir, id, d)
    requires e < |slots| && slots[Slot(start, e, |slots|)] == EMPTY
    ensures d <= e
  {
  }

  /** While a slot is empty, no chain is longer than the array. */
  lemma SearchMeetsEmpty(slots: seq<nat>, start: nat) returns (d: nat)
    requires start < |slots| && Count(slots, EMPTY) > 0
    ensures d < |slots| && slots[Slot(start, d, |slots|)] == EMPTY
  {
    assert EMPTY in slots;
    var s :| 0 <= s < |slots| && slots[s] == EMPTY;
    d := Distance(start, s, |slots|);
  }

  // ------------------------------------------------------ insertion

  /** Filling a slot breaks no chain. */
  lemma FillKeepsReach(slots: seq<nat>, s: nat, x: nat, start: nat, index: nat)
    requires s < |slots| && start < |slots| && x != EMPTY
    requires slots[s] != index && Reaches(slots, start, index)
    ensures Reaches(slots[s := x], start, index)
  {
    var d: nat :| ReachesAt(slots, start, index, d);
    assert ReachesAt(slots[s := x], start, index, d);
  }

  /** Values of a map that gains, or loses, one key of an injective directory. */
  lemma ValuesAfterOpen(dir: map<nat, nat>, id: nat, index: nat)
    requires id !in dir
    ensures dir[id := index].Values == dir.Values + {index}
    ensures |dir[id := index]| == |dir| + 1
    ensures Injective(dir) && index !in dir.Values ==> Injective(dir[id := index])
  {
    var dir' := dir[id := index];
    assert |dir'| == |dir| + 1 by { assert dir'.Keys == dir.Keys + {id}; }
    assert dir'[id] == index;
    forall i | i in dir.Values ensures i in dir'.Values {
      var c :| c in dir && dir[c] == i;
      assert dir'[c] == i;
    }
  }

  lemma ValuesAfterClose(dir: map<nat, nat>, id: nat)
    requires id in dir && Injective(dir)
    ensures (dir - {id}).Values == dir.Values - {dir[id]}
    ensures |dir - {id}| == |dir| - 1
    ensures Injective(dir - {id})
  {
    var dir' := dir - {id};
    assert dir'.Keys == dir.Keys - {id};
    forall i | i in dir.Values && i != dir[id] ensures i in dir'.Values {
      var c :| c in dir && dir[c] == i;
      assert dir'[c] == i;
    }
  }

  lemma InsertFindable(hash: nat -> nat, slots: seq<nat>, dir: map<nat, nat>, id: nat, index: nat, d: nat)
    requires 0 < |slots| && Findable(hash, slots, dir)
    requires id !in dir && index < TOMBSTONE
    requires d < |slots| && Unbroken(slots, Start(hash, id, |slots|), d)
    requires Vacant(slots[Slot(Start(hash, id, |slots|), d, |slots|)])
    ensures Findable(hash, slots[Slot(Start(hash, id, |slots|), d, |slots|) := index], dir[id := index])
  {
    var n := |slots|;
    var s := Slot(Start(hash, id, n), d, n);
    var slots', dir' := slots[s := index], dir[id := index];
    forall c | c in dir' ensures dir'[c] < TOMBSTONE && Reaches(slots', Start(hash, c, n), dir'[c]) {
      if c == id {
        assert ReachesAt(slots', Start(hash, id, n), index, d);
      } else {
        FillKeepsReach(slots, s, index, Start(hash, c, n), dir[c]);
      }
    }
  }

  lemma CountUpdate(slots: seq<nat>, s: nat, x: nat, v: nat)
    requires s < |slots|
    ensures Count(slots[s := x], v) ==
      Count(slots, v) - (if slots[s] == v then 1 else 0) + (if x == v then 1 else 0)
  {
  }

  lemma InsertEntries(slots: seq<nat>, dir: map<nat, nat>, id: nat, index: nat, s: nat)
    requires OnlyLive(slots, dir) && EnteredOnce(slots)
    requires id !in dir && index !in dir.Values && index < TOMBSTONE && s < |slots|
    ensures OnlyLive(slots[s := index], dir[id := index]) && EnteredOnce(slots[s := index])
  {
    ValuesAfterOpen(dir, id, index);
    assert forall t :: 0 <= t < |slots| ==> slots[t] != index;
  }

  lemma Insert(hash: nat -> nat, slots: seq<nat>, dir: map<nat, nat>, id: nat, index: nat, d: nat)
    requires Indexes(hash, slots, dir)
    requires id !in dir && index !in dir.Values && index < TOMBSTONE
    requires d < |slots| && Unbroken(slots, Start(hash, id, |slots|), d)
    requires Vacant(slots[Slot(Start(hash, id, |slots|), d, |slots|)])
    ensures Indexes(hash, slots[Slot(Start(hash, id, |slots|), d, |slots|) := index], dir[id := index])
  {
    var s := Slot(Start(hash, id, |slots|), d, |slots|);
    var slots', dir' := slots[s := index], dir[id := index];
    assert Findable(hash, slots', dir') by { InsertFindable(hash, slots, dir, id, index, d); }
    assert OnlyLive(slots', dir') && EnteredOnce(slots') by { InsertEntries(slots, dir, id, index, s); }
    assert Injective(dir') && Tallied(slots', dir') by {
      ValuesAfterOpen(dir, id, index);
      CountUpdate(slots, s, index, EMPTY);
      CountUpdate(slots, s, index, TOMBSTONE);
    }
  }

  /** The array and the directory after an open, with their tallies. */
  lemma EntryAdded(hash: nat -> nat, slots: seq<nat>, dir: map<nat, nat>, id: nat, index: nat, d: nat, s: nat)
    requires Indexes(hash, slots, dir)
    requires id !in dir && index !in dir.Values && index < TOMBSTONE
    requires d < |slots| && Unbroken(slots, Start(hash, id, |slots|), d)
    requires s == Slot(Start(hash, id, |slots|), d, |slots|) && Vacant(slots[s])
    ensures Indexes(hash, slots[s := index], dir[id := index]) && |dir[id := index]| == |dir| + 1
    ensures Count(slots[s := index], TOMBSTONE) == Count(slots, TOMBSTONE) - if slots[s] == TOMBSTONE then 1 else 0
  {
    hide Indexes, Unbroken, Start, Slot, Count, Injective;
    Insert(hash, slots, dir, id, index, d);
    CountUpdate(slots, s, index, TOMBSTONE);
    ValuesAfterOpen(dir, id, index);
  }

  // ------------------------------------------------------ deletion

  lemma DeleteFindable(hash: nat -> nat, slots: seq<nat>, dir: map<nat, nat>, id: nat, s: nat)
    requires 0 < |slots| && Injective(dir) && Findable(hash, slots, dir)
    requires id in dir && s < |slots| && slots[s] == dir[id]
    ensures Findable(hash, slots[s := TOMBSTONE], dir - {id})
  {
    var n := |slots|;
    forall c | c in dir - {id}
      ensures dir[c] < TOMBSTONE && Reaches(slots[s := TOMBSTONE], Start(hash, c, n), dir[c])
    {
      FillKeepsReach(slots, s, TOMBSTONE, Start(hash, c, n), dir[c]);
    }
  }

  lemma DeleteEntries(slots: seq<nat>, dir: map<nat, nat>, id: nat, s: nat)
    requires OnlyLive(slots, dir) && EnteredOnce(slots) && Injective(dir)
    requires id in dir && dir[id] < TOMBSTONE && s < |slots| && slots[s] == dir[id]
    ensures OnlyLive(slots[s := TOMBSTONE], dir - {id}) && EnteredOnce(slots[s := TOMBSTONE])
  {
    ValuesAfterClose(dir, id);
    forall t | 0 <= t < |slots| && t != s ensures Vacant(slots[t]) || slots[t] in (dir - {id}).Values {
      assert Vacant(slots[t]) || slots[t] != slots[s];
    }
  }

  /** Overwriting a live entry with a tombstone breaks no other call's chain. */
  lemma Delete(hash: nat -> nat, slots: seq<nat>, dir: map<nat, nat>, id: nat, s: nat)
    requires Indexes(hash, slots, dir)
    requires id in dir && s < |slots| && slots[s] == dir[id]
    ensures Indexes(hash, slots[s := TOMBSTONE], dir - {id})
  {
    var slots', dir' := slots[s := TOMBSTONE], dir - {id};
    assert Findable(hash, slots', dir') by { DeleteFindable(hash, slots, dir, id, s); }
    assert OnlyLive(slots', dir') && EnteredOnce(slots') by { DeleteEntries(slots, dir, id, s); }
    assert Injective(dir') && Tallied(slots', dir') by {
      ValuesAfterClose(dir, id);
      CountUpdate(slots, s, TOMBSTONE, EMPTY);
      CountUpdate(slots, s, TOMBSTONE, TOMBSTONE);
    }
  }

  /** And after a close. */
  lemma EntryRemoved(hash: nat -> nat, slots: seq<nat>, dir: map<nat, nat>, id: nat, s: nat)
    requires Indexes(hash, slots, dir)
    requires id in dir && s < |slots| && slots[s] == dir[id]
    ensures Indexes(hash, slots[s := TOMBSTONE], dir - {id}) && |dir - {id}| == |dir| - 1
    ensures Count(slots[s := TOMBSTONE], TOMBSTONE) == Count(slots, TOMBSTONE) + 1
    ensures Count(slots[s := TOMBSTONE], EMPTY) == Count(slots, EMPTY)
  {
    hide Indexes, Count, Injective;
    LiveIsNotVacant(hash, slots, dir, id);
    Delete(hash, slots, dir, id, s);
    CountUpdate(slots, s, TOMBSTONE, TOMBSTONE);
    CountUpdate(slots, s, TOMBSTONE, EMPTY);
    ValuesAfterClose(dir, id);
  }

  // ------------------------------------------------------ free list

  lemma TakeFree(free: seq<nat>, dir: map<nat, nat>, max: nat, id: nat)
    requires Partitions(free, dir, max) && free != [] && id !in dir
    ensures Partitions(free[..|free| - 1], dir[id := free[|free| - 1]], max)
  {
    var index, free' := free[|free| - 1], free[..|free| - 1];
    assert free == free' + [index];
    ValuesAfterOpen(dir, id, index);
    forall i | 0 <= i < max ensures i in free' || i in dir[id := index].Values {
      if i in free && i != index {
        var j :| 0 <= j < |free| && free[j] == i;
        assert free'[j] == i;
      }
    }
  }

  lemma GiveFree(free: seq<nat>, dir: map<nat, nat>, max: nat, id: nat)
    requires Partitions(free, dir, max) && Injective(dir) && id in dir
    ensures Partitions(free + [dir[id]], dir - {id}, max)
  {
    ValuesAfterClose(dir, id);
  }

  // ------------------------------------------------------ an empty index

  lemma {:induction false} ConstantCount(slots: seq<nat>, v: nat, w: nat)
    requires forall s :: 0 <= s < |slots| ==> slots[s] == v
    ensures Count(slots, w) == if w == v then |slots| else 0
  {
    if slots != [] {
      ConstantCount(slots[1..], v, w);
      assert slots == [slots[0]] + slots[1..];
    }
  }

  lemma EmptyIndex(hash: nat -> nat, slots: seq<nat>)
    requires 0 < |slots| && forall s :: 0 <= s < |slots| ==> slots[s] == EMPTY
    ensures Indexes(hash, slots, map[])
    ensures Count(slots, EMPTY) == |slots| && Count(slots, TOMBSTONE) == 0
  {
    ConstantCount(slots, EMPTY, EMPTY);
    ConstantCount(slots, EMPTY, TOMBSTONE);
  }

  /** Where a live session's entry is. */
  lemma EntryOf(hash: nat -> nat, slots: seq<nat>, dir: map<nat, nat>, id: nat) returns (e: nat)
    requires Indexes(hash, slots, dir) && id in dir
    ensures ReachesAt(slots, Start(hash, id, |slots|), dir[id], e)
    ensures dir[id] < TOMBSTONE
  {
    e :| ReachesAt(slots, Start(hash, id, |slots|), dir[id], e);
  }

  lemma LiveIsNotVacant(hash: nat -> nat, slots: seq<nat>, dir: map<nat, nat>, id: nat)
    requires Indexes(hash, slots, dir) && id in dir
    ensures dir[id] < TOMBSTONE && Injective(dir)
  {
  }

  lemma FewerKeys(a: map<nat, nat>, b: map<nat, nat>)
    requires forall k :: k in a ==> k in b
    ensures |a| <= |b|
    ensures |a| == |b| ==> a.Keys == b.Keys
  {
    assert b.Keys == (b.Keys - a.Keys) + a.Keys;
    assert |a.Keys| == |a| && |b.Keys| == |b|;
    if |a| == |b| { assert b.Keys - a.Keys == {}; }
  }

  /** The calls of dir whose session number is below i. */
  function Below(dir: map<nat, nat>, i: nat): map<nat, nat> {
    map id | id in dir && dir[id] < i :: dir[id]
  }

  lemma BelowGrows(dir: map<nat, nat>, i: nat, id: nat)
    requires Injective(dir) && id in dir && dir[id] == i
    ensures Below(dir, i + 1) == Below(dir, i)[id := i]
    ensures id !in Below(dir, i) && i !in Below(dir, i).Values && Injective(Below(dir, i))
    ensures |Below(dir, i)| < |dir|
  {
    forall c | c in Below(dir, i + 1) ensures c == id || c in Below(dir, i) {
    }
    FewerKeys(Below(dir, i)[id := i], dir);
    assert |Below(dir, i)[id := i]| == |Below(dir, i)| + 1;
  }

  lemma BelowSkips(dir: map<nat, nat>, i: nat)
    requires i !in dir.Values
    ensures Below(dir, i + 1) == Below(dir, i)
  {
  }
}
