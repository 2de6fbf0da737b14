// The log-linear bucketing scheme: from a 64-bit value to a counter index and
// back, with the machine's shifts, and the intervals the counters stand for.

module HistogramLayout {
  import opened Words
  import opened Products

  // ------------------------------------------------------ 64-bit operations

  function Shl64(a: uint64, k: nat): uint64 { Times(a, Pow2(k)) % TWO_64 }

  function Shr64(a: uint64, k: nat): uint64 {
    DivShrinks(a, Pow2(k));
    Div(a, Pow2(k))
  }

  function BitOr(a: nat, b: nat): nat {
    if a == 0 && b == 0 then 0
    else 2 * BitOr(a / 2, b / 2) + if a % 2 == 1 || b % 2 == 1 then 1 else 0
  }

  /** Position of the highest set bit, counted from 1. */
  function BitLen(x: nat): nat {
    if x == 0 then 0 else 1 + BitLen(x / 2)
  }

  /** __builtin_clzll. */
  function Clz64(x: nat): int { 64 - BitLen(x) }

  lemma {:induction false} BitLenOfOr(a: nat, b: nat)
    ensures BitLen(BitOr(a, b)) == Max(BitLen(a), BitLen(b))
  {
    if a != 0 || b != 0 {
      BitLenOfOr(a / 2, b / 2);
      assert BitOr(a, b) / 2 == BitOr(a / 2, b / 2);
      assert BitOr(a, b) != 0 by {
        if BitOr(a / 2, b / 2) == 0 { assert BitLen(a / 2) == 0 && BitLen(b / 2) == 0; }
      }
    }
  }

  lemma {:induction false} BitLenBounds(x: nat)
    ensures x < Pow2(BitLen(x))
    ensures x > 0 <==> BitLen(x) > 0
    ensures x > 0 ==> Pow2(BitLen(x) - 1) <= x
  {
    if x > 0 { BitLenBounds(x / 2); }
  }

  lemma BitLenIs(x: nat, k: nat)
    requires k > 0 && Pow2(k - 1) <= x < Pow2(k)
    ensures BitLen(x) == k
  {
    BitLenBounds(x);
    if BitLen(x) < k { Pow2Monotone(BitLen(x), k - 1); }
    if BitLen(x) > k { Pow2Monotone(k, BitLen(x) - 1); }
  }

  lemma BitLenOfWord(x: uint64)
    ensures BitLen(x) <= 64
  {
    BitLenBounds(x);
    Pow2Of64();
    if BitLen(x) > 64 { Pow2Monotone(64, BitLen(x) - 1); }
  }

  // ------------------------------------------------------ magnitudes

  function Pow10(d: nat): (r: nat)
    ensures r >= 1
  {
    if d == 0 then 1 else 10 * Pow10(d - 1)
  }

  /** ceil(log2(x)). */
  function CeilLog2(x: nat): (s: nat)
    requires 1 <= x
    ensures Pow2(s) >= x && (s > 0 ==> Pow2(s - 1) < x)
  {
    if x == 1 then 0 else 1 + CeilLog2((x + 1) / 2)
  }

  /** floor(log2(x)). */
  function FloorLog2(x: nat): (s: nat)
    requires 1 <= x
    ensures Pow2(s) <= x < Pow2(s + 1)
  {
    BitLenBounds(x);
    BitLen(x) - 1
  }

  /** unit_magnitude_ and sub_bucket_magnitude_. */
  datatype Layout = Layout(unit: nat, sub: nat) {

    /** The shifts of the constructor stay within a word. */
    predicate Valid() { 1 <= sub && unit + sub <= 63 }

    function Half(): (h: nat) requires Valid() ensures 1 <= h { Pow2(sub - 1) }

    function SubBucketMask(): nat { Times(Pow2(sub) - 1, Pow2(unit)) }

    function BucketIndex(value: uint64): int {
      (64 - unit - sub) - Clz64(BitOr(value, SubBucketMask()))
    }

    function CountsIndex(value: uint64): uint64
      requires Valid()
    {
      BucketOf(this, value);
      WordHalf(this);
      var bucket: nat := BucketIndex(value);
      var subBucket := Shr64(value, bucket + unit);
      Add64(Shl64(bucket + 1, sub - 1), Sub64(subBucket, Half()))
    }

    function ValueFromIndex(index: uint64): uint64
      requires Valid()
    {
      WordHalf(this);
      var bucket := Div(index, Half()) - 1;
      var subBucket := Mod(index, Half()) + Half();
      if bucket < 0 then Shl64(subBucket - Half(), unit) else Shl64(subBucket, bucket + unit)
    }

    function EquivalentRange(value: uint64): uint64
      requires Valid()
    {
      BucketOf(this, value);
      Shl64(1, unit + BucketIndex(value))
    }

    function HighestEquivalent(value: uint64): uint64
      requires Valid()
    {
      Sub64(Add64(value, EquivalentRange(value)), 1)
    }

    /** The least value counter i stands for, free of word size. */
    function LowerBound(i: nat): nat
      requires Valid()
    {
      if i < Half() then Times(i, Pow2(unit))
      else
        DivAtLeastOne(i, Half());
        Times(Mod(i, Half()) + Half(), Pow2(Div(i, Half()) - 1 + unit))
    }
  }

  lemma DivAtLeastOne(i: nat, h: nat)
    requires 0 < h <= i
    ensures 1 <= Div(i, h)
  {
    hide Times, Div, Mod;
    DivMod(i, h);
    TimesNext(0, h);
  }

  lemma WordHalf(l: Layout)
    requires l.Valid()
    ensures 2 * l.Half() <= TWO_64 / 2
  {
    Pow2Of64();
    Pow2Monotone(l.sub, 63);
  }

  lemma MaskBits(l: Layout)
    requires l.Valid()
    ensures BitLen(l.SubBucketMask()) == l.unit + l.sub
  {
    hide Times, Pow2;
    var a, p, n := Pow2(l.sub - 1), Pow2(l.unit), l.unit + l.sub;
    Pow2Step(l.sub);
    Pow2Step(n);
    Pow2Times(l.sub - 1, l.unit);
    TimesDoubles(a, p);
    TimesNext(2 * a - 1, p);
    TimesMonotone(a, 2 * a - 1, p);
    BitLenIs(l.SubBucketMask(), n);
  }

  lemma Pow2Step(n: nat)
    requires 0 < n
    ensures Pow2(n) == 2 * Pow2(n - 1)
  {
  }

  /** The bucket is how many bits the value overflows the first one by. */
  lemma BucketOf(l: Layout, v: uint64)
    requires l.Valid()
    ensures l.BucketIndex(v) == Max(BitLen(v) - l.unit - l.sub, 0)
    ensures 0 <= l.BucketIndex(v) <= 64 - l.unit - l.sub
  {
    MaskBits(l);
    BitLenOfOr(v, l.SubBucketMask());
    BitLenOfWord(v);
  }

  // ------------------------------------------------------ buckets tile the range

  /** Counter i is sub-bucket s of bucket b. */
  ghost predicate Placed(l: Layout, i: nat, b: nat, s: nat)
    requires l.Valid()
  {
    i == Times(b, l.Half()) + s && s < 2 * l.Half() && (b == 0 || l.Half() <= s)
  }

  lemma PlacedBound(l: Layout, i: nat, b: nat, s: nat)
    requires l.Valid() && Placed(l, i, b, s)
    ensures l.LowerBound(i) == Times(s, Pow2(b + l.unit))
    ensures l.Half() <= s ==> Div(i, l.Half()) == b + 1 && Mod(i, l.Half()) == s - l.Half()
    ensures i < l.Half() <==> s < l.Half()
  {
    hide Times, Div, Mod, Pow2;
    var h := l.Half();
    TimesNext(b, h);
    if h <= s {
      DivModIs(i, h, b + 1, s - h);
    }
  }

  /** Neighbouring counters meet: each ends where the next begins, one unit of its bucket higher. */
  lemma NextBound(l: Layout, i: nat, b: nat, s: nat)
    requires l.Valid() && Placed(l, i, b, s)
    ensures l.LowerBound(i + 1) == Times(s, Pow2(b + l.unit)) + Pow2(b + l.unit)
  {
    hide Times, Div, Mod, Pow2;
    var h, p := l.Half(), Pow2(b + l.unit);
    TimesNext(s, p);
    TimesNext(b, h);
    if s + 1 < 2 * h {
      PlacedBound(l, i + 1, b, s + 1);
    } else {
      PlacedBound(l, i + 1, b + 1, h);
      Pow2Step(b + 1 + l.unit);
      TimesDoubles(h, p);
    }
  }

  lemma Decompose(l: Layout, i: nat) returns (b: nat, s: nat)
    requires l.Valid()
    ensures Placed(l, i, b, s)
  {
    hide Times, Div, Mod, Pow2;
    var h := l.Half();
    if i < h {
      TimesNext(0, h);
      b, s := 0, i;
    } else {
      DivMod(i, h);
      DivAtLeastOne(i, h);
      b, s := Div(i, h) - 1, Mod(i, h) + h;
      TimesNext(b, h);
    }
  }

  lemma {:induction false} BoundsGrow(l: Layout, i: nat, j: nat)
    requires l.Valid() && i < j
    ensures l.LowerBound(i) < l.LowerBound(j)
    decreases j
  {
    hide Times, Div, Mod, Pow2, Placed;
    var b, s := Decompose(l, j - 1);
    PlacedBound(l, j - 1, b, s);
    NextBound(l, j - 1, b, s);
    if i < j - 1 { BoundsGrow(l, i, j - 1); }
  }

  lemma SubBucketRange(l: Layout, v: uint64, b: nat, s: nat)
    requires l.Valid() && b == Max(BitLen(v) - l.unit - l.sub, 0) && s == Div(v, Pow2(b + l.unit))
    ensures s < 2 * l.Half() && (b > 0 ==> l.Half() <= s)
  {
    hide Times, Div, Mod, Pow2, BitLen;
    var p, h := Pow2(b + l.unit), l.Half();
    BitLenBounds(v);
    DivMod(v, p);
    Pow2Monotone(BitLen(v), l.sub + (b + l.unit));
    Pow2Times(l.sub, b + l.unit);
    Pow2Step(l.sub);
    TimesMonotone(2 * h, s, p);
    if b > 0 {
      Pow2Times(l.sub - 1, b + l.unit);
      assert BitLen(v) - 1 == l.sub - 1 + (b + l.unit);
      TimesMonotone(s, h, p);
    }
  }

  lemma {:induction false} LinearBelowPow2(n: nat)
    ensures n + 1 <= Pow2(n)
  {
    if n > 0 { LinearBelowPow2(n - 1); }
  }

  lemma IndicesFitAWord(l: Layout, b: nat)
    requires l.Valid() && b <= 64 - l.unit - l.sub
    ensures Times(b + 2, l.Half()) <= TWO_64
  {
    hide Times, Pow2;
    LinearBelowPow2(65 - l.sub);
    Pow2Times(65 - l.sub, l.sub - 1);
    Pow2Of64();
    TimesMonotone(b + 2, Pow2(65 - l.sub), l.Half());
  }

  /** The word arithmetic of counts_index does not wrap. */
  lemma IndexInWords(l: Layout, b: nat, s: nat)
    requires l.Valid() && b <= 64 - l.unit - l.sub && s < 2 * l.Half() && (b == 0 || l.Half() <= s)
    ensures s < TWO_64 && Shl64(b + 1, l.sub - 1) == Times(b + 1, l.Half())
    ensures Add64(Shl64(b + 1, l.sub - 1), Sub64(s, l.Half())) == Times(b, l.Half()) + s
  {
    hide Times, Pow2;
    WordHalf(l);
    IndicesFitAWord(l, b);
    TimesNext(b, l.Half());
    TimesNext(b + 1, l.Half());
  }

  /** Which bucket and sub-bucket a value falls in, and the index the word arithmetic makes of them. */
  lemma IndexOf(l: Layout, v: uint64) returns (b: nat, s: nat)
    requires l.Valid()
    ensures b == l.BucketIndex(v) <= 64 - l.unit - l.sub && s == Div(v, Pow2(b + l.unit))
    ensures Placed(l, l.CountsIndex(v), b, s)
  {
    hide Times, Div, Mod, Pow2, BitLen, BitOr, Shl64, Add64, Sub64, Layout.BucketIndex, Layout.Half;
    BucketOf(l, v);
    b := l.BucketIndex(v);
    s := Div(v, Pow2(b + l.unit));
    SubBucketRange(l, v, b, s);
    IndexInWords(l, b, s);
  }

  /** Every value lies in the interval of the counter it is counted in. */
  lemma IndexTiles(l: Layout, v: uint64)
    requires l.Valid()
    ensures l.LowerBound(l.CountsIndex(v)) <= v < l.LowerBound(l.CountsIndex(v) + 1)
  {
    hide Times, Div, Mod, Pow2, BitLen, BitOr;
    var b, s := IndexOf(l, v);
    var p := Pow2(b + l.unit);
    PlacedBound(l, l.CountsIndex(v), b, s);
    NextBound(l, l.CountsIndex(v), b, s);
    DivMod(v, p);
  }

  /** The counter's interval is the only one the value lies in: counts_index inverts the tiling. */
  lemma IndexIsTile(l: Layout, v: uint64, i: nat)
    requires l.Valid()
    ensures l.CountsIndex(v) == i <==> l.LowerBound(i) <= v < l.LowerBound(i + 1)
    ensures l.CountsIndex(v) < i <==> v < l.LowerBound(i)
  {
    hide Times, Div, Mod, Pow2, BitLen, BitOr;
    var k := l.CountsIndex(v);
    IndexTiles(l, v);
    if k < i {
      if k + 1 < i { BoundsGrow(l, k + 1, i); }
      BoundsGrow(l, k, i);
      BoundsGrow(l, i, i + 1);
    } else if i < k {
      if i + 1 < k { BoundsGrow(l, i + 1, k); }
      BoundsGrow(l, i, k);
    }
  }

  lemma IndexMonotone(l: Layout, v: uint64, w: uint64)
    requires l.Valid() && v <= w
    ensures l.CountsIndex(v) <= l.CountsIndex(w)
  {
    hide Times, Div, Mod, Pow2, BitLen, BitOr;
    IndexTiles(l, w);
    IndexIsTile(l, v, l.CountsIndex(w) + 1);
  }

  lemma FromIndexLow(l: Layout, i: uint64)
    requires l.Valid() && i < l.Half() && l.LowerBound(i) < TWO_64
    ensures l.ValueFromIndex(i) == l.LowerBound(i)
  {
    hide Times, Pow2, Div, Mod;
    WordHalf(l);
    TimesNext(0, l.Half());
    DivModIs(i, l.Half(), 0, i);
  }

  lemma FromIndexHigh(l: Layout, i: uint64)
    requires l.Valid() && l.Half() <= i && l.LowerBound(i) < TWO_64
    ensures l.ValueFromIndex(i) == l.LowerBound(i)
  {
    hide Times, Pow2, Div, Mod;
    WordHalf(l);
    DivAtLeastOne(i, l.Half());
  }

  /** value_from_index is the least value of its counter, and counting it gives the index back. */
  lemma ValueIsLowerBound(l: Layout, i: uint64)
    requires l.Valid() && l.LowerBound(i) < TWO_64
    ensures l.ValueFromIndex(i) == l.LowerBound(i)
    ensures l.CountsIndex(l.LowerBound(i)) == i
  {
    hide Layout.LowerBound, Layout.ValueFromIndex, Layout.CountsIndex;
    BoundsGrow(l, i, i + 1);
    IndexIsTile(l, l.LowerBound(i), i);
    if i < l.Half() { FromIndexLow(l, i); } else { FromIndexHigh(l, i); }
  }

  /** highest_equivalent is the greatest value of the counter. */
  lemma HighestIsLast(l: Layout, i: uint64)
    requires l.Valid() && l.LowerBound(i + 1) <= TWO_64
    ensures l.LowerBound(i) < TWO_64
    ensures l.HighestEquivalent(l.LowerBound(i)) == l.LowerBound(i + 1) - 1
  {
    hide Times, Div, Mod, Pow2, BitLen, BitOr;
    BoundsGrow(l, i, i + 1);
    var v := l.LowerBound(i);
    ValueIsLowerBound(l, i);
    var b, s := IndexOf(l, v);
    PlacedBound(l, i, b, s);
    NextBound(l, i, b, s);
    Pow2Of64();
    Pow2Monotone(l.unit + b, 63);
    TimesNext(0, Pow2(l.unit + b));
  }

  /** How far above a value its counter's last value can be: less than one unit, or a part in 10^digits. */
  lemma RelativeError(l: Layout, v: uint64, digits: nat)
    requires l.Valid() && 2 * Pow10(digits) <= Pow2(l.sub)
    ensures var excess := l.LowerBound(l.CountsIndex(v) + 1) - 1 - v;
      excess >= 0 && (excess < Pow2(l.unit) || Times(excess, Pow10(digits)) <= v)
  {
    hide Times, Div, Mod, Pow2, BitLen, BitOr, Pow10;
    var b, s := IndexOf(l, v);
    var p, d, h := Pow2(b + l.unit), Pow10(digits), l.Half();
    IndexTiles(l, v);
    PlacedBound(l, l.CountsIndex(v), b, s);
    NextBound(l, l.CountsIndex(v), b, s);
    var excess := l.LowerBound(l.CountsIndex(v) + 1) - 1 - v;
    assert excess < p;
    if b > 0 {
      Pow2Step(l.sub);
      TimesMonotone(excess, p, d);
      TimesCommutes(p, d);
      TimesMonotone(d, h, p);
      TimesMonotone(h, s, p);
    }
  }

  lemma OneIsPow2()
    ensures Pow2(0) == 1
  {
  }

  /** The number of counters for `buckets` buckets, and the values they cover. */
  lemma LimitOf(l: Layout, buckets: nat)
    requires l.Valid() && 1 <= buckets
    ensures l.LowerBound(Times(buckets + 1, l.Half())) == Pow2(l.unit + l.sub + buckets - 1)
  {
    hide Times, Div, Mod, Pow2;
    var h := l.Half();
    TimesNext(buckets, h);
    PlacedBound(l, Times(buckets + 1, h), buckets, h);
    Pow2Times(l.sub - 1, buckets + l.unit);
  }
}
