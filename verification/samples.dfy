// The exact statistics a histogram approximates: counts, ranks and order
// statistics over everything that was recorded, in a plain sequence.

module Samples {
  import opened Words

  /** How many of the samples lie below x. */
  function CountBelow(s: seq<uint64>, x: nat): (c: nat)
    ensures c <= |s|
  {
    if s == [] then 0
    else CountBelow(s[..|s| - 1], x) + if s[|s| - 1] < x then 1 else 0
  }

  lemma {:induction false} CountBelowMonotone(s: seq<uint64>, x: nat, y: nat)
    requires x <= y
    ensures CountBelow(s, x) <= CountBelow(s, y)
  {
    if s != [] { CountBelowMonotone(s[..|s| - 1], x, y); }
  }

  lemma {:induction false} CountBelowConcat(s: seq<uint64>, t: seq<uint64>, x: nat)
    ensures CountBelow(s + t, x) == CountBelow(s, x) + CountBelow(t, x)
  {
    if t == [] {
      assert s + t == s;
    } else {
      CountBelowConcat(s, t[..|t| - 1], x);
      assert (s + t)[..|s + t| - 1] == s + t[..|t| - 1];
    }
  }

  /** x is the k-th smallest sample: fewer than k lie below it, and at least k do not lie above it. */
  predicate IsRank(s: seq<uint64>, k: nat, x: nat) {
    CountBelow(s, x) < k <= CountBelow(s, x + 1)
  }

  /** The k-th smallest sample, searched upward from x. */
  function OrderStatistic(s: seq<uint64>, k: nat, limit: nat, x: nat): (r: nat)
    requires x < limit && CountBelow(s, x) < k <= CountBelow(s, limit)
    ensures x <= r < limit && IsRank(s, k, r)
    decreases limit - x
  {
    if CountBelow(s, x + 1) >= k then x else OrderStatistic(s, k, limit, x + 1)
  }

  lemma {:induction false} NothingBelowZero(s: seq<uint64>)
    ensures CountBelow(s, 0) == 0
  {
    if s != [] { NothingBelowZero(s[..|s| - 1]); }
  }

  lemma {:induction false} CountJumpsAtSamples(s: seq<uint64>, x: nat)
    requires CountBelow(s, x) < CountBelow(s, x + 1)
    ensures x in s
  {
    if s[|s| - 1] != x {
      CountJumpsAtSamples(s[..|s| - 1], x);
    }
  }

  /** A higher rank is a larger sample; in particular there is only one sample of each rank. */
  lemma RanksAscend(s: seq<uint64>, k: nat, k': nat, x: nat, x': nat)
    requires k <= k' && IsRank(s, k, x) && IsRank(s, k', x')
    ensures x <= x' && x in s
  {
    CountJumpsAtSamples(s, x);
    if x' < x { CountBelowMonotone(s, x' + 1, x); }
  }

  /** Counting does not depend on the order samples arrived in. */
  lemma {:induction false} CountBelowPermutes(s: seq<uint64>, t: seq<uint64>, x: nat)
    requires multiset(s) == multiset(t)
    ensures CountBelow(s, x) == CountBelow(t, x)
  {
    if s == [] {
      assert |multiset(t)| == 0;
    } else {
      var j := PullOut(s, t);
      CountBelowPermutes(s[..|s| - 1], Without(t, j), x);
      CountBelowWithout(t, j, x);
    }
  }

  function Without(t: seq<uint64>, j: nat): seq<uint64>
    requires j < |t|
  {
    t[..j] + t[j + 1..]
  }

  /** Where t keeps its copy of s's last sample. */
  lemma PullOut(s: seq<uint64>, t: seq<uint64>) returns (j: nat)
    requires s != [] && multiset(s) == multiset(t)
    ensures j < |t| && t[j] == s[|s| - 1]
    ensures multiset(s[..|s| - 1]) == multiset(Without(t, j))
  {
    var last := s[|s| - 1];
    assert s == s[..|s| - 1] + [last];
    assert last in multiset(t);
    j :| 0 <= j < |t| && t[j] == last;
    TakenOut(t, j);
    assert multiset(s[..|s| - 1]) == multiset(s) - multiset{last};
  }

  lemma TakenOut(t: seq<uint64>, j: nat)
    requires j < |t|
    ensures multiset(Without(t, j)) == multiset(t) - multiset{t[j]}
  {
    assert t == t[..j] + [t[j]] + t[j + 1..];
  }

  lemma CountBelowWithout(t: seq<uint64>, j: nat, x: nat)
    requires j < |t|
    ensures CountBelow(t, x) == CountBelow(Without(t, j), x) + if t[j] < x then 1 else 0
  {
    assert t == t[..j] + [t[j]] + t[j + 1..];
    CountBelowConcat(t[..j] + [t[j]], t[j + 1..], x);
    CountBelowConcat(t[..j], [t[j]], x);
    CountBelowConcat(t[..j], t[j + 1..], x);
    assert [t[j]][..0] == [];
  }

  // ------------------------------------------------------ coordinated omission

  /** The samples a stall of length m swallowed, one interval apart. */
  function Missing(m: uint64, interval: uint64): seq<uint64>
    requires 0 < interval
  {
    if m < interval then [] else [m] + Missing(m - interval, interval)
  }

  /** What recording `value` with an expected interval records. */
  function Backfilled(value: uint64, interval: uint64): seq<uint64> {
    [value] + if interval == 0 || value <= interval then [] else Missing(value - interval, interval)
  }

  lemma {:induction false} MissingAre(m: uint64, interval: uint64, k: nat)
    requires 0 < interval
    ensures |Missing(m, interval)| == m / interval
    ensures k < m / interval ==> Missing(m, interval)[k] == m - k * interval >= interval
  {
    if m >= interval {
      MissingAre(m - interval, interval, if k > 0 then k - 1 else 0);
      if k > 0 { OneLapLess(k, interval); }
    }
    QuotientCases(m, interval);
  }

  lemma ModLess(m: nat, interval: nat)
    requires 0 < interval <= m
    ensures m / interval == (m - interval) / interval + 1
  {
    var q, r := (m - interval) / interval, (m - interval) % interval;
    assert m - interval == q * interval + r;
    assert (q + 1) * interval == q * interval + interval;
    DivModUnique(m, interval, q + 1, r);
  }

  lemma QuotientCases(value: nat, interval: nat)
    requires 0 < interval
    ensures value < interval ==> value / interval == 0
    ensures value == interval ==> value / interval == 1
    ensures interval < value ==> value / interval == (value - interval) / interval + 1
  {
    if interval <= value {
      ModLess(value, interval);
      if value == interval { DivModUnique(value, interval, 1, 0); }
    } else {
      DivModUnique(value, interval, 0, value);
    }
  }

  lemma OneLapLess(k: nat, interval: nat)
    requires 0 < k
    ensures (k - 1) * interval == k * interval - interval
  {
  }

  lemma BackfillAt(value: uint64, interval: uint64, k: nat)
    requires 0 < interval < value
    ensures |Backfilled(value, interval)| == (value - interval) / interval + 1
    ensures k < (value - interval) / interval + 1 ==> Backfilled(value, interval)[k] == value - k * interval >= 0
    ensures 0 < k < (value - interval) / interval + 1 ==> Backfilled(value, interval)[k] >= interval
  {
    hide Missing;
    if k > 0 {
      MissingAre(value - interval, interval, k - 1);
      OneLapLess(k, interval);
    } else {
      MissingAre(value - interval, interval, 0);
    }
  }

  /** Exactly value - k * interval for every k below max(1, floor(value / interval)), none of the
      synthesised ones shorter than the interval. */
  lemma BackfilledAre(value: uint64, interval: uint64, k: nat)
    requires 0 < interval
    ensures |Backfilled(value, interval)| == Max(1, value / interval)
    ensures k < Max(1, value / interval) ==> k * interval <= value
    ensures k < Max(1, value / interval) ==> Backfilled(value, interval)[k] == value - k * interval
    ensures 0 < k < value / interval ==> Backfilled(value, interval)[k] >= interval
  {
    QuotientCases(value, interval);
    if interval < value {
      BackfillAt(value, interval, k);
    } else if k > 0 {
      assert value / interval <= 1;
    }
  }

  lemma BackfillStarts(value: uint64, interval: uint64)
    ensures interval == 0 || value <= interval ==> Backfilled(value, interval) == [value]
    ensures 0 < interval < value ==> Backfilled(value, interval) == [value] + Missing(value - interval, interval)
  {
    assert [value] + [] == [value];
  }

  lemma MissingStep(done: seq<uint64>, m: uint64, interval: uint64)
    requires 0 < interval <= m
    ensures done + [m] + Missing(m - interval, interval) == done + Missing(m, interval)
  {
    assert done + ([m] + Missing(m - interval, interval)) == done + [m] + Missing(m - interval, interval);
  }

  lemma MissingEnds(done: seq<uint64>, m: uint64, interval: uint64)
    requires m < interval
    ensures done + Missing(m, interval) == done
  {
  }
}
