// When merging counters by position is sound: merge compares only the number of
// counters, and histograms of different layouts can have equally many.

module MergeLayouts {
  import opened Words
  import opened Products
  import opened HistogramLayout
  import opened Histograms

  ghost predicate Fills(l: Layout, n: nat, buckets: nat)
    requires l.Valid()
  {
    1 <= buckets && n == Times(buckets + 1, l.Half())
  }

  /** l has n counters, in some number of buckets, all of them within a word's reach. */
  ghost predicate Sized(l: Layout, n: nat) {
    l.Valid() && l.LowerBound(n) <= TWO_64 && exists buckets: nat :: Fills(l, n, buckets)
  }

  lemma AtLeastTwoHalves(l: Layout, n: nat)
    requires Sized(l, n)
    ensures 2 * l.Half() <= n
  {
    hide Times, Pow2, Layout.LowerBound;
    var buckets: nat :| Fills(l, n, buckets);
    TimesMonotone(2, buckets + 1, l.Half());
    TimesNext(1, l.Half());
  }

  /** Coarser units: the finer layout's first unit falls in different counters. */
  lemma UnitsDiffer(l: Layout, l': Layout, n: nat) returns (v: uint64)
    requires Sized(l, n) && Sized(l', n) && l.unit < l'.unit
    ensures v < l.LowerBound(n) && v < l'.LowerBound(n) && l.CountsIndex(v) != l'.CountsIndex(v)
  {
    hide Times, Pow2, Layout.CountsIndex, Layout.LowerBound;
    AtLeastTwoHalves(l, n);
    FirstBound(l);
    FirstBound(l');
    Pow2Monotone(l.unit + 1, l'.unit);
    Pow2Step(l.unit + 1);
    BoundsGrow(l, 1, n);
    BoundsGrow(l', 1, n);
    v := Pow2(l.unit);
    IndexIsTile(l, v, 1);
    IndexIsTile(l', v, 1);
  }

  lemma FirstBound(l: Layout)
    requires l.Valid()
    ensures l.LowerBound(1) == Pow2(l.unit)
  {
    hide Times, Pow2, Layout.LowerBound;
    TimesNext(0, l.Half());
    PlacedBound(l, 1, 0, 1);
    TimesNext(0, Pow2(l.unit));
  }

  /** Finer sub-buckets: one past the coarser layout's first bucket falls in different counters. */
  lemma SubBucketsDiffer(l: Layout, l': Layout, n: nat) returns (v: uint64)
    requires Sized(l, n) && Sized(l', n) && l.unit == l'.unit && l.sub < l'.sub
    ensures v < l.LowerBound(n) && v < l'.LowerBound(n) && l.CountsIndex(v) != l'.CountsIndex(v)
  {
    hide Times, Pow2, Layout.CountsIndex, Layout.LowerBound;
    var h, t, p := l.Half(), 2 * l.Half(), Pow2(l.unit);
    AtLeastTwoHalves(l', n);
    Pow2Step(l.sub);
    Pow2Monotone(l.sub, l'.sub - 1);
    Pow2Step(1 + l.unit);
    TimesNext(0, h);
    TimesNext(0, l'.Half());
    TimesNext(t, p);
    TimesDoubles(h, p);
    PlacedBound(l, t, 1, h);
    NextBound(l, t, 1, h);
    PlacedBound(l', t + 1, 0, t + 1);
    BoundsGrow(l, t + 1, n);
    BoundsGrow(l', t + 1, n);
    v := Times(t + 1, p);
    IndexIsTile(l, v, t);
    IndexIsTile(l', v, t + 1);
  }

  /** Two layouts with equally many counters count every trackable value alike exactly when they are the same
      layout: comparing sizes, as merge does, is not enough, and comparing magnitudes is. */
  lemma SameCountersIffSameLayout(l: Layout, l': Layout, n: nat)
    requires Sized(l, n) && Sized(l', n)
    ensures (forall v: uint64 :: v < l.LowerBound(n) && v < l'.LowerBound(n) ==> l.CountsIndex(v) == l'.CountsIndex(v))
      <==> l == l'
  {
    hide Times, Pow2, Layout.CountsIndex, Layout.LowerBound;
    if l.unit < l'.unit {
      var v := UnitsDiffer(l, l', n);
    } else if l'.unit < l.unit {
      var v := UnitsDiffer(l', l, n);
    } else if l.sub < l'.sub {
      var v := SubBucketsDiffer(l, l', n);
    } else if l'.sub < l.sub {
      var v := SubBucketsDiffer(l', l, n);
    }
  }

  /** Adding the counters of two streams, recorded under l and l', gives the counters of both streams under l. */
  ghost predicate SumsAreRight(l: Layout, l': Layout, n: nat)
    requires l.Valid() && l'.Valid()
  {
    forall s: seq<uint64>, t: seq<uint64>, i: nat :: i < n ==> Tally(l, s, i) + Tally(l', t, i) == Tally(l, s + t, i)
  }

  lemma TallyOfOne(l: Layout, v: uint64, i: nat)
    requires l.Valid()
    ensures Tally(l, [v], i) == (if l.CountsIndex(v) == i then 1 else 0) && Tally(l, [], i) == 0
  {
    hide Layout.CountsIndex;
    assert [v][..0] == [];
  }

  /** What merge computes is the histogram of both streams, for all pairs of streams, exactly when the layouts are
      the same. */
  lemma MergeIsRightIffSameLayout(l: Layout, l': Layout, n: nat)
    requires Sized(l, n) && Sized(l', n)
    ensures SumsAreRight(l, l', n) <==> l == l'
  {
    hide Layout.CountsIndex, Layout.LowerBound, Tally, Fills;
    if l == l' {
      forall s: seq<uint64>, t: seq<uint64>, i: nat | i < n
        ensures Tally(l, s, i) + Tally(l', t, i) == Tally(l, s + t, i)
      {
        TallyConcat(l, s, t, i);
      }
    } else {
      SameCountersIffSameLayout(l, l', n);
      var v: uint64 :| v < l.LowerBound(n) && v < l'.LowerBound(n) && l.CountsIndex(v) != l'.CountsIndex(v);
      var i := l'.CountsIndex(v);
      IndexIsTile(l', v, n);
      TallyOfOne(l, v, i);
      TallyOfOne(l', v, i);
      assert [] + [v] == [v];
      assert Tally(l, [], i) + Tally(l', [v], i) != Tally(l, [] + [v], i);
    }
  }

  /** The least power of two not below x is pinned down by its neighbours. */
  lemma CeilLog2Is(x: nat, s: nat)
    requires 0 < s && Pow2(s - 1) < x <= Pow2(s)
    ensures CeilLog2(x) == s
  {
    hide Pow2;
    var r := CeilLog2(x);
    if r < s { Pow2Monotone(r, s - 1); }
    if s < r { Pow2Monotone(s, r - 1); }
  }

  lemma DigitsGiveMagnitudes()
    ensures CeilLog2(2 * Pow10(1)) == 5 && CeilLog2(2 * Pow10(2)) == 8
  {
    hide CeilLog2;
    assert Pow10(1) == 10 && Pow10(2) == 100;
    assert Pow2(4) == 16 && Pow2(5) == 32 && Pow2(7) == 128 && Pow2(8) == 256;
    CeilLog2Is(20, 5);
    CeilLog2Is(200, 8);
  }

  lemma SizedBy(l: Layout, n: nat, buckets: nat)
    requires l.Valid() && Fills(l, n, buckets) && l.unit + l.sub + buckets <= 65
    ensures Sized(l, n)
  {
    hide Times, Pow2, Layout.LowerBound;
    LimitOf(l, buckets);
    Pow2Of64();
    Pow2Monotone(l.unit + l.sub + buckets - 1, 64);
  }

  /** Such a pair exists: one digit over fifteen buckets and two digits over one both take 256 counters. */
  lemma SameSizeDifferentLayout()
    ensures Sized(Layout(0, 5), 256) && Sized(Layout(0, 8), 256)
    ensures CeilLog2(2 * Pow10(1)) == 5 && CeilLog2(2 * Pow10(2)) == 8
  {
    hide Layout.LowerBound, CeilLog2, Pow10;
    DigitsGiveMagnitudes();
    assert Pow2(4) == 16 && Pow2(7) == 128;
    SizedBy(Layout(0, 5), 256, 15);
    SizedBy(Layout(0, 8), 256, 1);
  }
}
