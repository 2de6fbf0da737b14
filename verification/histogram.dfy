// The latency histogram: a fixed array of counters standing for the multiset of
// everything recorded, and percentiles read off it with a proved error.

module Histograms {
  import opened Words
  import opened Products
  import opened HistogramLayout
  import opened Samples

  // ------------------------------------------------------ what the counters mean

  /** How many samples are counted at index i. */
  function Tally(l: Layout, s: seq<uint64>, i: nat): nat
    requires l.Valid()
  {
    if s == [] then 0
    else Tally(l, s[..|s| - 1], i) + if l.CountsIndex(s[|s| - 1]) == i then 1 else 0
  }

  /** A counter counts the samples between its lower bound and the next. */
  lemma {:induction false} TallyIsGap(l: Layout, s: seq<uint64>, i: nat)
    requires l.Valid()
    ensures CountBelow(s, l.LowerBound(i + 1)) == CountBelow(s, l.LowerBound(i)) + Tally(l, s, i)
  {
    hide Layout.LowerBound, Layout.CountsIndex;
    if s != [] {
      TallyIsGap(l, s[..|s| - 1], i);
      IndexIsTile(l, s[|s| - 1], i);
      BoundsGrow(l, i, i + 1);
    }
  }

  lemma {:induction false} TallyConcat(l: Layout, s: seq<uint64>, t: seq<uint64>, i: nat)
    requires l.Valid()
    ensures Tally(l, s + t, i) == Tally(l, s, i) + Tally(l, t, i)
  {
    hide Layout.CountsIndex;
    if t == [] {
      assert s + t == s;
    } else {
      TallyConcat(l, s, t[..|t| - 1], i);
      assert (s + t)[..|s + t| - 1] == s + t[..|t| - 1];
    }
  }

  ghost predicate IsGreatest(s: seq<uint64>, limit: nat, m: nat) {
    m in s && m < limit && forall v :: v in s && v < limit ==> v <= m
  }

  ghost predicate IsLeast(s: seq<uint64>, limit: nat, m: nat) {
    m in s && m < limit && forall v :: v in s && v < limit ==> m <= v
  }

  /** The fields of a histogram stand for the samples s. */
  ghost predicate Represents(l: Layout, counts: seq<nat>, total: nat, overflow: nat, min: nat, max: nat,
                             s: seq<uint64>)
    requires l.Valid()
  {
    var limit := l.LowerBound(|counts|);
    && (forall i :: 0 <= i < |counts| ==> counts[i] == Tally(l, s, i))
    && total == CountBelow(s, limit)
    && total + overflow == |s|
    && (if total == 0 then max == 0 else IsGreatest(s, limit, max) && IsLeast(s, limit, min))
  }

  function Sum(counts: seq<nat>): nat {
    if counts == [] then 0 else Sum(counts[..|counts| - 1]) + counts[|counts| - 1]
  }

  /** The counters below k add up to the samples below the k-th bound. */
  lemma {:induction false} CountersSumTo(l: Layout, counts: seq<nat>, s: seq<uint64>, k: nat)
    requires l.Valid() && k <= |counts| && forall i :: 0 <= i < |counts| ==> counts[i] == Tally(l, s, i)
    ensures Sum(counts[..k]) == CountBelow(s, l.LowerBound(k))
  {
    hide Layout.LowerBound, Layout.CountsIndex, Tally;
    if k == 0 {
      LowerBoundOfZero(l);
      NothingBelowZero(s);
    } else {
      CountersSumTo(l, counts, s, k - 1);
      TallyIsGap(l, s, k - 1);
      assert counts[..k][..k - 1] == counts[..k - 1];
    }
  }

  /** The counters add up to the total. */
  lemma CountersSumToTotal(l: Layout, counts: seq<nat>, total: nat, overflow: nat, min: nat, max: nat, s: seq<uint64>)
    requires l.Valid() && Represents(l, counts, total, overflow, min, max, s)
    ensures Sum(counts) == total && Sum(counts) + overflow == |s|
  {
    hide Layout.LowerBound, Tally, Sum;
    CountersSumTo(l, counts, s, |counts|);
    assert counts[..|counts|] == counts;
  }

  lemma {:induction false} SomeSampleBelow(s: seq<uint64>, limit: nat)
    ensures CountBelow(s, limit) > 0 <==> exists v :: v in s && v < limit
  {
    if s != [] {
      var rest, last := s[..|s| - 1], s[|s| - 1];
      assert s == rest + [last];
      SomeSampleBelow(rest, limit);
      if last < limit { assert last in s; }
      if v :| v in rest && v < limit { assert v in s; }
    }
  }

  /** A histogram's state depends on the multiset recorded, not on the order or the route it came by. */
  lemma StateIsFunctionOfMultiset(l: Layout, c: seq<nat>, c': seq<nat>, total: nat, total': nat,
                                  overflow: nat, overflow': nat, min: nat, min': nat, max: nat, max': nat,
                                  s: seq<uint64>, t: seq<uint64>)
    requires l.Valid() && |c| == |c'| && multiset(s) == multiset(t)
    requires Represents(l, c, total, overflow, min, max, s)
    requires Represents(l, c', total', overflow', min', max', t)
    ensures c == c' && total == total' && overflow == overflow' && max == max'
    ensures total > 0 ==> min == min'
  {
    hide Layout.LowerBound;
    forall i | 0 <= i < |c| ensures c[i] == c'[i] {
      TallyIsGap(l, s, i);
      TallyIsGap(l, t, i);
      CountBelowPermutes(s, t, l.LowerBound(i));
      CountBelowPermutes(s, t, l.LowerBound(i + 1));
    }
    CountBelowPermutes(s, t, l.LowerBound(|c|));
    assert |multiset(s)| == |s| && |multiset(t)| == |t|;
    assert forall v :: v in s <==> v in multiset(s);
    assert forall v :: v in t <==> v in multiset(t);
  }

  // ------------------------------------------------------ percentiles

  /** ceil, on exact reals. */
  function Ceil(x: real): int { -((-x).Floor) }

  function Clamped(p: real): real {
    if p < 0.0 then 0.0 else if p > 100.0 then 100.0 else p
  }

  /** The rank a percentile asks for: rank 0 reads as rank 1. */
  function Target(p: real, total: nat): (k: nat)
    ensures k <= total
  {
    var share := Clamped(p) / 100.0 * total as real;
    assert 0.0 <= share <= total as real by { ShareBounds(Clamped(p), total as real); }
    Ceil(share)
  }

  lemma ShareBounds(p: real, n: real)
    requires 0.0 <= p <= 100.0 && 0.0 <= n
    ensures 0.0 <= p / 100.0 * n <= n
  {
    var q := p / 100.0;
    ProductAtLeastZero(q, n);
    ProductAtLeastZero(1.0 - q, n);
    OneLess(q, n);
  }

  lemma ProductAtLeastZero(a: real, b: real)
    requires 0.0 <= a && 0.0 <= b
    ensures 0.0 <= a * b
  {
  }

  lemma OneLess(q: real, n: real)
    ensures (1.0 - q) * n == n - q * n
  {
  }

  lemma TargetMonotone(p: real, p': real, total: nat)
    requires p <= p'
    ensures Target(p, total) <= Target(p', total)
  {
    var q, q', n := Clamped(p) / 100.0, Clamped(p') / 100.0, total as real;
    assert q <= q';
    assert (q' - q) * n >= 0.0;
    assert (q' - q) * n == q' * n - q * n;
  }

  function Rank(p: real, total: nat): nat { Max(1, Target(p, total)) }

  /** What is reported for exact value x: the last value of its counter, but never more than the maximum. */
  function Reported(l: Layout, x: uint64, max: nat): int
    requires l.Valid()
  {
    Min(l.LowerBound(l.CountsIndex(x) + 1) - 1, max)
  }

  /** The percentile of the samples s under a layout with n counters. */
  ghost function Percentile(l: Layout, n: nat, s: seq<uint64>, max: nat, p: real): int
    requires l.Valid() && l.LowerBound(n) <= TWO_64
  {
    var limit := l.LowerBound(n);
    var total := CountBelow(s, limit);
    if total == 0 then 0
    else
      NothingBelowZero(s);
      Reported(l, OrderStatistic(s, Rank(p, total), limit, 0), max)
  }

  /** x is the p-th percentile of the samples below the limit: for p above 0, less than p percent of them are below it
      and at least p percent are not above it; at 0 and under it is the least of them, at 100 and over the greatest. */
  ghost predicate IsPercentile(s: seq<uint64>, limit: nat, p: real, x: nat) {
    var total := CountBelow(s, limit) as real;
    && x in s && x < limit
    && (0.0 < p <= 100.0 ==>
         CountBelow(s, x) as real * 100.0 < p * total <= CountBelow(s, x + 1) as real * 100.0)
    && (p <= 0.0 ==> forall v :: v in s ==> x <= v)
    && (p >= 100.0 ==> forall v :: v in s && v < limit ==> v <= x)
  }

  lemma RankOneIsLeast(s: seq<uint64>, x: nat)
    requires IsRank(s, 1, x)
    ensures forall v :: v in s ==> x <= v
  {
    hide CountBelow;
    SomeSampleBelow(s, x);
  }

  lemma LastRankIsGreatest(s: seq<uint64>, limit: nat, x: nat)
    requires x < limit && IsRank(s, CountBelow(s, limit), x)
    ensures forall v :: v in s && v < limit ==> v <= x
  {
    hide CountBelow;
    forall v | v in s && v < limit ensures v <= x {
      if x < v { BelowTheRest(s, v, x + 1, limit); }
    }
  }

  lemma RankWithinShare(below: nat, k: nat, upTo: nat, share: real)
    requires below < k <= upTo && (k - 1) as real * 100.0 < share <= k as real * 100.0
    ensures below as real * 100.0 < share <= upTo as real * 100.0
  {
  }

  /** The rank the program rounds to is that of the percentile asked for. */
  lemma RankIsPercentile(s: seq<uint64>, limit: nat, p: real, x: nat)
    requires CountBelow(s, limit) > 0 && x in s && x < limit && IsRank(s, Rank(p, CountBelow(s, limit)), x)
    ensures IsPercentile(s, limit, p, x)
  {
    hide Rank, CountBelow;
    var total := CountBelow(s, limit);
    RankOf(p, total);
    if p <= 0.0 { RankOneIsLeast(s, x); }
    if p >= 100.0 { LastRankIsGreatest(s, limit, x); }
    if 0.0 < p <= 100.0 {
      RankWithinShare(CountBelow(s, x), Rank(p, total), CountBelow(s, x + 1), p * total as real);
    }
  }

  lemma RankOf(p: real, total: nat)
    requires 0 < total
    ensures 0.0 < p <= 100.0 ==>
      (Rank(p, total) - 1) as real * 100.0 < p * total as real <= Rank(p, total) as real * 100.0
    ensures p <= 0.0 ==> Rank(p, total) == 1
    ensures p >= 100.0 ==> Rank(p, total) == total
  {
    var n := total as real;
    if p <= 0.0 {
      assert 0.0 / 100.0 * n == 0.0;
    } else if p >= 100.0 {
      assert 100.0 / 100.0 * n == n;
    } else {
      var q := p / 100.0;
      assert q * n > 0.0 && p * n == 100.0 * (q * n) by { assert p == 100.0 * q; }
    }
  }

  /** A sample at or above a bound and below the limit is counted between them. */
  lemma {:induction false} BelowTheRest(s: seq<uint64>, v: uint64, lo: nat, limit: nat)
    requires v in s && lo <= v < limit
    ensures CountBelow(s, lo) < CountBelow(s, limit)
  {
    var rest, last := s[..|s| - 1], s[|s| - 1];
    assert s == rest + [last];
    CountBelowMonotone(rest, lo, limit);
    if v in rest { BelowTheRest(rest, v, lo, limit); }
  }

  /** For every percentile of every set of samples: the report lies between the exact percentile and the recorded
      maximum, and overshoots by less than a unit or at most one part in 10^digits; with a unit of 1, the latter. */
  lemma PercentileAccuracy(l: Layout, n: nat, s: seq<uint64>, max: nat, p: real, digits: nat)
    requires l.Valid() && l.LowerBound(n) <= TWO_64 && CountBelow(s, l.LowerBound(n)) > 0
    requires IsGreatest(s, l.LowerBound(n), max)
    requires 2 * Pow10(digits) <= Pow2(l.sub)
    ensures exists x: nat ::
      && IsPercentile(s, l.LowerBound(n), p, x)
      && IsRank(s, Rank(p, CountBelow(s, l.LowerBound(n))), x)
      && x <= Percentile(l, n, s, max, p) <= max
      && (|| Percentile(l, n, s, max, p) - x < Pow2(l.unit)
          || Times(Percentile(l, n, s, max, p) - x, Pow10(digits)) <= x)
      && (l.unit == 0 ==> Times(Percentile(l, n, s, max, p) - x, Pow10(digits)) <= x)
  {
    hide Layout.LowerBound, Layout.CountsIndex, Times, Pow10, Pow2, IsPercentile;
    var limit := l.LowerBound(n);
    NothingBelowZero(s);
    var k := Rank(p, CountBelow(s, limit));
    var x := OrderStatistic(s, k, limit, 0);
    RanksAscend(s, k, k, x, x);
    RankIsPercentile(s, limit, p, x);
    IndexTiles(l, x);
    RelativeError(l, x, digits);
    TimesMonotone(Reported(l, x, max) - x, l.LowerBound(l.CountsIndex(x) + 1) - 1 - x, Pow10(digits));
    TimesNext(0, Pow10(digits));
    OneIsPow2();
  }

  /** The exact percentile is one value. */
  lemma PercentileIsOne(s: seq<uint64>, limit: nat, p: real, x: nat, y: nat)
    requires IsPercentile(s, limit, p, x) && IsPercentile(s, limit, p, y)
    ensures x == y
  {
    if 0.0 < p < 100.0 {
      if x < y { CountBelowMonotone(s, x + 1, y); }
      if y < x { CountBelowMonotone(s, y + 1, x); }
    }
  }

  /** A higher percentile never reports less. */
  lemma PercentileMonotone(l: Layout, n: nat, s: seq<uint64>, max: nat, p: real, p': real)
    requires l.Valid() && l.LowerBound(n) <= TWO_64 && p <= p'
    ensures Percentile(l, n, s, max, p) <= Percentile(l, n, s, max, p')
  {
    hide Layout.LowerBound, Layout.CountsIndex;
    var limit := l.LowerBound(n);
    var total := CountBelow(s, limit);
    if total > 0 {
      NothingBelowZero(s);
      TargetMonotone(p, p', total);
      var k, k' := Rank(p, total), Rank(p', total);
      var x, x' := OrderStatistic(s, k, limit, 0), OrderStatistic(s, k', limit, 0);
      RanksAscend(s, k, k', x, x');
      IndexMonotone(l, x, x');
      if l.CountsIndex(x) < l.CountsIndex(x') {
        BoundsGrow(l, l.CountsIndex(x) + 1, l.CountsIndex(x') + 1);
      }
    }
  }

  // ------------------------------------------------------ the object

  function LayoutFor(digits: nat, lowest: uint64): Layout {
    Layout(FloorLog2(if lowest == 0 then 1 else lowest), CeilLog2(2 * Pow10(digits)))
  }

  lemma RepresentsAfterRecord(l: Layout, counts: seq<nat>, total: nat, overflow: nat, min: nat, max: nat,
                              s: seq<uint64>, v: uint64)
    requires l.Valid() && Represents(l, counts, total, overflow, min, max, s)
    ensures var i := l.CountsIndex(v);
      if i >= |counts| then Represents(l, counts, total, overflow + 1, min, max, s + [v])
      else Represents(l, counts[i := counts[i] + 1], total + 1, overflow,
                      if total == 0 || v < min then v else min, if v > max then v else max, s + [v])
  {
    hide Layout.LowerBound, Layout.CountsIndex;
    var limit := l.LowerBound(|counts|);
    IndexIsTile(l, v, |counts|);
    assert (s + [v])[..|s|] == s;
    assert CountBelow(s + [v], limit) == total + if v < limit then 1 else 0;
    forall i | 0 <= i < |counts|
      ensures Tally(l, s + [v], i) == counts[i] + if l.CountsIndex(v) == i then 1 else 0
    {
    }
    SomeSampleBelow(s, limit);
    assert forall w :: w in s + [v] <==> w in s || w == v;
  }

  lemma RepresentsAfterMerge(l: Layout, c: seq<nat>, total: nat, overflow: nat, min: nat, max: nat, s: seq<uint64>,
                             c': seq<nat>, total': nat, overflow': nat, min': nat, max': nat, t: seq<uint64>,
                             sum: seq<nat>)
    requires l.Valid() && |c| == |c'| == |sum|
    requires Represents(l, c, total, overflow, min, max, s) && Represents(l, c', total', overflow', min', max', t)
    requires forall i :: 0 <= i < |c| ==> sum[i] == c[i] + c'[i]
    ensures Represents(l, sum, total + total', overflow + overflow',
                       if total' == 0 then min else if total == 0 then min' else Min(min, min'),
                       if total' == 0 then max else Max(max, max'), s + t)
  {
    hide Layout.LowerBound, Layout.CountsIndex;
    var limit := l.LowerBound(|c|);
    CountBelowConcat(s, t, limit);
    forall i | 0 <= i < |c| ensures sum[i] == Tally(l, s + t, i) { TallyConcat(l, s, t, i); }
    SomeSampleBelow(s, limit);
    SomeSampleBelow(t, limit);
    assert forall w :: w in s + t <==> w in s || w in t;
  }

  /** The sample of rank k lies between any two bounds whose counts straddle k. */
  lemma RankWithin(s: seq<uint64>, k: nat, x: nat, lo: nat, hi: nat)
    requires IsRank(s, k, x) && CountBelow(s, lo) < k <= CountBelow(s, hi)
    ensures lo <= x < hi
  {
    if x < lo { CountBelowMonotone(s, x + 1, lo); }
    if hi <= x { CountBelowMonotone(s, hi, x); }
  }

  /** Where the running count passes k is the counter of the sample of rank k. */
  lemma CounterOfRank(l: Layout, n: nat, s: seq<uint64>, k: nat, x: uint64, i: nat)
    requires l.Valid() && l.LowerBound(n) <= TWO_64 && i < n
    requires IsRank(s, k, x) && CountBelow(s, l.LowerBound(i)) < k <= CountBelow(s, l.LowerBound(i + 1))
    ensures i < TWO_64
    ensures l.HighestEquivalent(l.ValueFromIndex(i)) == l.LowerBound(l.CountsIndex(x) + 1) - 1
  {
    hide Layout.LowerBound, Layout.CountsIndex, Layout.HighestEquivalent, Layout.ValueFromIndex;
    RankWithin(s, k, x, l.LowerBound(i), l.LowerBound(i + 1));
    IndexIsTile(l, x, i);
    BoundsGrow(l, i, i + 1);
    if i + 1 < n { BoundsGrow(l, i + 1, n); }
    ValueIsLowerBound(l, i);
    HighestIsLast(l, i);
  }

  class Histogram {
    const layout: Layout
    const counts: array<nat>
    var total: nat
    var overflow: nat
    var min: uint64
    var max: uint64
    /** Everything ever recorded, in order. */
    ghost var recorded: seq<uint64>

    ghost predicate Laid() {
      layout.Valid() && layout.LowerBound(counts.Length) <= TWO_64
    }

    ghost predicate Valid()
      reads this, counts
    {
      Laid() && Represents(layout, counts[..], total, overflow, min, max, recorded)
    }

    /** The doubling loop of the constructor: as few buckets as cover everything up to `highest`. */
    static method SizeBuckets(l: Layout, highest: uint64) returns (buckets: nat)
      requires l.Valid()
      ensures 1 <= buckets && highest < Pow2(l.unit + l.sub + buckets - 1) <= TWO_64
      ensures buckets == 1 || Pow2(l.unit + l.sub + buckets - 2) <= highest
    {
      hide Pow2;
      Pow2Of64();
      buckets := 1;
      var e := l.unit + l.sub;
      Pow2Monotone(e, 63);
      var smallestUntrackable: uint64 := Pow2(e);
      while smallestUntrackable <= highest
        invariant 1 <= buckets && e + buckets - 1 <= 63
        invariant smallestUntrackable == Pow2(e + buckets - 1)
        invariant buckets == 1 || Pow2(e + buckets - 2) <= highest
        decreases 64 - buckets
      {
        Pow2Step(e + buckets);
        if smallestUntrackable > (TWO_64 - 1) / 2 {
          assert e + buckets - 1 == 63 by {
            if e + buckets - 1 < 63 { Pow2Monotone(e + buckets, 63); }
          }
          buckets := buckets + 1;
          break;
        }
        if e + buckets == 64 { assert false; }
        smallestUntrackable := 2 * smallestUntrackable;
        buckets := buckets + 1;
      }
      Pow2Monotone(e + buckets - 1, 64);
    }

    constructor (highest: uint64, digits: nat, lowest: uint64)
      requires LayoutFor(digits, lowest).Valid()
      ensures Valid() && recorded == [] && fresh(counts)
      ensures layout == LayoutFor(digits, lowest)
      ensures Pow2(layout.unit) <= Max(lowest, 1) < Pow2(layout.unit + 1)
      ensures 0 < layout.sub && Pow2(layout.sub - 1) < 2 * Pow10(digits) <= Pow2(layout.sub)
      ensures highest < layout.LowerBound(counts.Length)
    {
      var l := LayoutFor(digits, lowest);
      var buckets := SizeBuckets(l, highest);
      LimitOf(l, buckets);
      layout := l;
      counts := new nat[Times(buckets + 1, l.Half())](_ => 0);
      total, overflow, min, max := 0, 0, 0, 0;
      recorded := [];
    }

    method Record(value: uint64)
      requires Valid()
      modifies this, counts
      ensures Valid() && recorded == old(recorded) + [value]
      ensures overflow == old(overflow) + if value >= layout.LowerBound(counts.Length) then 1 else 0
    {
      hide Layout.LowerBound, Layout.CountsIndex, Represents;
      ghost var was := counts[..];
      RepresentsAfterRecord(layout, was, total, overflow, min, max, recorded, value);
      IndexIsTile(layout, value, counts.Length);
      recorded := recorded + [value];
      var index := layout.CountsIndex(value);
      if index >= counts.Length {
        overflow := overflow + 1;
        return;
      }
      counts[index] := counts[index] + 1;
      assert counts[..] == was[index := was[index] + 1];
      total := total + 1;
      if value > max { max := value; }
      if total == 1 || value < min { min := value; }
    }

    method RecordWithExpectedInterval(value: uint64, interval: uint64)
      requires Valid()
      modifies this, counts
      ensures Valid() && recorded == old(recorded) + Backfilled(value, interval)
    {
      hide Represents, Layout.LowerBound, Missing, Backfilled;
      BackfillStarts(value, interval);
      Record(value);
      if interval == 0 || value <= interval { return; }
      var missing: uint64 := value - interval;
      ghost var done := [value];
      while missing >= interval
        invariant Valid()
        invariant recorded == old(recorded) + done
        invariant done + Missing(missing, interval) == Backfilled(value, interval)
      {
        Record(missing);
        MissingStep(done, missing, interval);
        done := done + [missing];
        missing := missing - interval;
      }
      MissingEnds(done, missing, interval);
    }

    /** Whatever the layout, a report is between the exact percentile and the maximum. */
    lemma Brackets(p: real)
      requires Valid()
      ensures total > 0 ==> exists x: nat ::
        IsPercentile(recorded, layout.LowerBound(counts.Length), p, x)
        && x <= Percentile(layout, counts.Length, recorded, max, p) <= max
    {
      if total > 0 {
        assert 2 * Pow10(0) <= Pow2(layout.sub);
        PercentileAccuracy(layout, counts.Length, recorded, max, p, 0);
      }
    }

    method ValueAtPercentile(p: real) returns (r: int)
      requires Valid()
      ensures r == Percentile(layout, counts.Length, recorded, max, p)
      ensures total == 0 ==> r == 0
      ensures total > 0 ==> exists x: nat ::
        IsPercentile(recorded, layout.LowerBound(counts.Length), p, x) && x <= r <= max
    {
      hide Layout.LowerBound, Layout.CountsIndex, Layout.HighestEquivalent, Layout.ValueFromIndex, Target, IsPercentile;
      Brackets(p);
      if total == 0 { return 0; }
      ghost var limit, k := layout.LowerBound(counts.Length), Rank(p, total);
      ghost var x := (NothingBelowZero(recorded); OrderStatistic(recorded, k, limit, 0));
      var target := Target(p, total);
      var running := 0;
      var i := 0;
      LowerBoundOfZero(layout);
      NothingBelowZero(recorded);
      while i < counts.Length
        invariant i <= counts.Length
        invariant running == CountBelow(recorded, layout.LowerBound(i)) < k
      {
        running := running + counts[i];
        TallyIsGap(layout, recorded, i);
        if running >= target && counts[i] != 0 {
          CounterOfRank(layout, counts.Length, recorded, k, x, i);
          return Min(layout.HighestEquivalent(layout.ValueFromIndex(i)), max);
        }
        i := i + 1;
      }
      assert false;
      return max;
    }

    method Merge(other: Histogram)
      requires Valid() && other.Valid()
      requires other != this ==> other.counts != counts
      modifies this, counts
      ensures Laid()
      ensures counts.Length != other.counts.Length ==>
        Valid() && recorded == old(recorded) && counts[..] == old(counts[..])
      ensures counts.Length == other.counts.Length ==>
        && recorded == old(recorded) + old(other.recorded)
        && (forall i :: 0 <= i < counts.Length ==> counts[i] == old(counts[i]) + old(other.counts[i]))
        && total == old(total) + old(other.total) && overflow == old(overflow) + old(other.overflow)
        && (layout == other.layout ==> Valid())
    {
      hide Layout.LowerBound, Layout.CountsIndex, Represents;
      if other.counts.Length != counts.Length { return; }
      ghost var mine, theirs := counts[..], other.counts[..];
      var i := 0;
      while i < counts.Length
        invariant i <= counts.Length
        invariant forall j :: 0 <= j < i ==> counts[j] == mine[j] + theirs[j]
        invariant forall j :: i <= j < counts.Length ==> counts[j] == mine[j]
        invariant other != this ==> other.counts[..] == theirs
        modifies counts
      {
        counts[i] := counts[i] + other.counts[i];
        i := i + 1;
      }
      if layout == other.layout {
        RepresentsAfterMerge(layout, mine, total, overflow, min, max, recorded,
                             theirs, other.total, other.overflow, other.min, other.max, other.recorded, counts[..]);
      }
      recorded := recorded + other.recorded;
      total := total + other.total;
      overflow := overflow + other.overflow;
      if other.total != 0 {
        max := if max <= other.max then other.max else max;
        min := if total == other.total then other.min else if min <= other.min then min else other.min;
      }
    }

    method Reset()
      requires Valid()
      modifies this, counts
      ensures Valid() && recorded == []
    {
      forall i | 0 <= i < counts.Length { counts[i] := 0; }
      total, overflow, min, max := 0, 0, 0, 0;
      recorded := [];
    }
  }

  lemma LowerBoundOfZero(l: Layout)
    requires l.Valid()
    ensures l.LowerBound(0) == 0
  {
    TimesNext(0, Pow2(l.unit));
  }
}
