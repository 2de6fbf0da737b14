// G.711 mu-law: the producer's encoder, the consumer's decoder and its table, and
// how much a sample moves when it goes through both.

module Codec {
  import opened Words
  import opened Audio

  const BIAS: nat := 132
  const CLIP: int := 32635

  type int16 = x: int | -32768 <= x <= 32767

  function Abs(x: int): nat { if x < 0 then -x else x }

  /** The sample the encoder sees: magnitudes above CLIP saturate. */
  function Clipped(x: int16): int16 {
    if x > CLIP then CLIP else if x < -CLIP then -CLIP else x
  }

  // ------------------------------------------------------ decoding

  function MulawToLinear(code: byte): (sample: int16)
    ensures -32124 <= sample <= 32124
  {
    var mu := 255 - code;
    var exponent := (mu / 16) % 8;
    var mantissa := mu % 16;
    Magnitudes(exponent, mantissa);
    var sample := Biased(exponent, mantissa) - BIAS;
    if mu / 128 == 1 then -sample else sample
  }

  /** ((mantissa << 3) + 132) << exponent. */
  function Biased(e: nat, m: nat): nat { (m * 8 + BIAS) * Pow2(e) }

  lemma SmallPowers()
    ensures Pow2(0) == 1 && Pow2(1) == 2 && Pow2(2) == 4 && Pow2(3) == 8 && Pow2(4) == 16 && Pow2(5) == 32
    ensures Pow2(6) == 64 && Pow2(7) == 128 && Pow2(8) == 256 && Pow2(9) == 512 && Pow2(10) == 1024
    ensures Pow2(11) == 2048 && Pow2(12) == 4096 && Pow2(13) == 8192 && Pow2(14) == 16384 && Pow2(15) == 32768
  {
    assert Pow2(3) == 8;
    assert Pow2(6) == 64;
    assert Pow2(9) == 512;
    assert Pow2(12) == 4096;
    assert Pow2(15) == 32768;
  }

  lemma Magnitudes(e: nat, m: nat)
    requires e < 8 && m < 16
    ensures 0 <= Biased(e, m) - BIAS <= 32124
    ensures InSegment(Biased(e, m), e)
    ensures Biased(e, m) == BIAS <==> e == 0 && m == 0
  {
    hide Pow2;
    SmallPowers();
  }

  /** kMulawTable. */
  method BuildTable() returns (table: array<int16>)
    ensures table.Length == 256 && fresh(table)
    ensures forall i: byte :: table[i] == MulawToLinear(i)
  {
    hide MulawToLinear;
    table := new int16[256](_ => 0);
    for i := 0 to 256
      invariant forall j: byte :: j < i ==> table[j] == MulawToLinear(j)
    {
      table[i] := MulawToLinear(i);
    }
  }

  // ------------------------------------------------------ encoding

  /** Which segment a biased magnitude lies in: 2^(e+7) <= v < 2^(e+8). */
  predicate InSegment(v: nat, e: nat) {
    e < 8 && Pow2(e + 7) <= v < Pow2(e + 8)
  }

  /** sign, exponent and mantissa fields, complemented. */
  function Pack(negative: bool, e: nat, m: nat): byte
    requires e < 8 && m < 16
  {
    255 - ((if negative then 128 else 0) + 16 * e + m)
  }

  function Mantissa(v: nat, e: nat): (m: nat)
    requires e < 8
    ensures m < 16
  {
    (v / Pow2(e + 3)) % 16
  }

  ghost predicate EncodesIn(sample: int16, code: byte, e: nat) {
    var v := Abs(Clipped(sample)) + BIAS;
    InSegment(v, e) && code == Pack(sample < 0, e, Mantissa(v, e))
  }

  /** code carries the sign, segment and mantissa of the sample. */
  ghost predicate Encodes(sample: int16, code: byte) {
    exists e: nat :: EncodesIn(sample, code, e)
  }

  method EncodeMulaw(sample: int16) returns (code: byte)
    ensures Encodes(sample, code)
  {
    hide Pow2;
    SmallPowers();
    var value: nat := if sample < 0 then -(sample as int) else sample;
    if value > CLIP { value := CLIP; }
    value := value + BIAS;
    var exponent: nat := 7;
    var mask: nat := 0x4000;
    while (value / mask) % 2 == 0 && exponent > 0
      invariant exponent <= 7 && mask == Pow2(exponent + 7) && value < 2 * mask
      decreases exponent
    {
      BitClear(value, mask);
      TopBit(exponent + 7);
      mask := mask / 2;
      exponent := exponent - 1;
    }
    BitClear(value, mask);
    TopBit(exponent + 8);
    code := Pack(sample < 0, exponent, Mantissa(value, exponent));
    assert EncodesIn(sample, code, exponent);
  }

  /** Below twice the mask, the mask bit tells whether the value reaches the mask. */
  lemma BitClear(value: nat, mask: nat)
    requires 0 < mask && value < 2 * mask
    ensures (value / mask) % 2 == 0 <==> value < mask
  {
    if value < mask { DivModUnique(value, mask, 0, value); } else { DivModUnique(value, mask, 1, value - mask); }
  }

  lemma TopBit(n: nat)
    requires n > 0
    ensures Pow2(n) == 2 * Pow2(n - 1) && Pow2(n) / 2 == Pow2(n - 1)
  {
  }

  /** A magnitude has one segment, so the encoder's answer is unique. */
  lemma OneSegment(v: nat, e: nat, e': nat)
    requires InSegment(v, e) && InSegment(v, e')
    ensures e == e'
  {
    if e < e' { Pow2Monotone(e + 8, e' + 7); }
    if e' < e { Pow2Monotone(e' + 8, e + 7); }
  }

  // ------------------------------------------------------ through both

  lemma UnpackFields(negative: bool, e: nat, m: nat)
    requires e < 8 && m < 16
    ensures var mu := 255 - Pack(negative, e, m);
      (mu / 16) % 8 == e && mu % 16 == m && (mu / 128 == 1 <==> negative)
  {
  }

  lemma Fields(negative: bool, e: nat, m: nat)
    requires e < 8 && m < 16
    ensures MulawToLinear(Pack(negative, e, m)) == if negative then -(Biased(e, m) - BIAS) else Biased(e, m) - BIAS
  {
    hide Biased, Pack;
    UnpackFields(negative, e, m);
  }

  /** A step of the segment is eight times the unit the mantissa is shifted by. */
  lemma Midpoint(q: int, p: nat)
    ensures ((q - 16) * 8 + BIAS) * p == q * (8 * p) + 4 * p
  {
  }

  /** The step of segment e that v falls in. */
  lemma StepOf(v: nat, e: nat) returns (q: nat)
    requires InSegment(v, e)
    ensures 16 <= q < 32 && Mantissa(v, e) == q - 16
    ensures q * (8 * Pow2(e)) <= v < q * (8 * Pow2(e)) + 8 * Pow2(e)
  {
    hide Pow2;
    var d := Pow2(e + 3);
    SegmentSteps(e);
    q := v / d;
    assert q * d <= v < q * d + d by { DivModUnique(v, d, q, v % d); assert v == d * q + v % d; }
    if q < 16 { LapBound(q + 1, 16, d); }
    if q >= 32 { LapBound(32, q, d); }
  }

  lemma LapBound(a: nat, b: nat, d: nat)
    requires a <= b
    ensures a * d <= b * d
    ensures (a + 1) * d == a * d + d
  {
    assert (b - a) * d >= 0;
  }

  lemma SegmentSteps(e: nat)
    ensures Pow2(e + 3) == 8 * Pow2(e)
    ensures Pow2(e + 7) == 16 * Pow2(e + 3) && Pow2(e + 8) == 32 * Pow2(e + 3)
  {
    assert Pow2(e + 3) == 2 * Pow2(e + 2) && Pow2(e + 2) == 2 * Pow2(e + 1);
    assert Pow2(e + 8) == 2 * Pow2(e + 7) && Pow2(e + 7) == 2 * Pow2(e + 6);
    assert Pow2(e + 6) == 2 * Pow2(e + 5) && Pow2(e + 5) == 2 * Pow2(e + 4);
  }

  /** The decoded magnitude is the middle of the encoder's interval. */
  lemma Quantised(v: nat, e: nat)
    requires InSegment(v, e)
    ensures 32 * Abs(Biased(e, Mantissa(v, e)) - v) <= v
  {
    hide Pow2, Mantissa;
    var q := StepOf(v, e);
    Midpoint(q, Pow2(e));
    SegmentSteps(e);
  }

  /** A sample comes back within one part in 32 of itself plus the bias, with its sign. */
  lemma RoundTripError(sample: int16, code: byte)
    requires Encodes(sample, code)
    ensures 32 * Abs(MulawToLinear(code) - Clipped(sample)) <= Abs(Clipped(sample)) + BIAS
    ensures MulawToLinear(code) != 0 ==> (MulawToLinear(code) < 0 <==> sample < 0)
  {
    hide Biased, Pack, Mantissa, MulawToLinear, InSegment;
    var v := Abs(Clipped(sample)) + BIAS;
    var e: nat :| EncodesIn(sample, code, e);
    assert e < 8 by { SegmentsAreEight(v, e); }
    Fields(sample < 0, e, Mantissa(v, e));
    Quantised(v, e);
    Magnitudes(e, Mantissa(v, e));
  }

  lemma SegmentsAreEight(v: nat, e: nat)
    requires InSegment(v, e)
    ensures e < 8
  {
  }

  /** Decoding and encoding again gives the same code, for every code but the one for negative zero. */
  lemma CodeRoundTrip(code: byte, again: byte)
    requires Encodes(MulawToLinear(code), again)
    ensures again == code <==> code != 0x7F
    ensures code == 0x7F ==> again == 0xFF
  {
    hide Biased, Mantissa, InSegment, MulawToLinear;
    var mu := 255 - code;
    var negative, e, m := mu / 128 == 1, (mu / 16) % 8, mu % 16;
    assert code == Pack(negative, e, m);
    Fields(negative, e, m);
    Magnitudes(e, m);
    var x := MulawToLinear(code);
    var v := Abs(Clipped(x)) + BIAS;
    assert v == Biased(e, m);
    var e': nat :| EncodesIn(x, again, e');
    OneSegment(v, e, e');
    MantissaBack(e, m);
  }

  lemma MantissaBack(e: nat, m: nat)
    requires e < 8 && m < 16
    ensures Mantissa(Biased(e, m), e) == m
  {
    hide Pow2;
    SegmentSteps(e);
    Midpoint(m + 16, Pow2(e));
    DivModUnique(Biased(e, m), Pow2(e + 3), m + 16, 4 * Pow2(e));
  }

  // ------------------------------------------------------ the whole table

  /** The ends of the table. */
  lemma TableEnds()
    ensures MulawToLinear(0xFF) == 0 && MulawToLinear(0x7F) == 0
    ensures MulawToLinear(0x80) == 32124 && MulawToLinear(0x00) == -32124
  {
    hide MulawToLinear, Biased;
    Fields(false, 0, 0);
    Fields(true, 0, 0);
    Fields(false, 7, 15);
    Fields(true, 7, 15);
    FullScale();
    Magnitudes(0, 0);
  }

  lemma StepsAscend(e: nat, m: nat, e': nat, m': nat)
    requires e < 8 && m < 16 && e' < 8 && m' < 16 && 16 * e + m < 16 * e' + m'
    ensures Biased(e, m) < Biased(e', m')
  {
    hide Pow2;
    if e < e' {
      Magnitudes(e, m);
      Magnitudes(e', m');
      Pow2Monotone(e + 8, e' + 7);
    } else {
      LapBound(m * 8 + BIAS + 1, m' * 8 + BIAS, Pow2(e));
      LapBound(m * 8 + BIAS, m' * 8 + BIAS, Pow2(e));
    }
  }

  /** Positive codes decode to ascending samples from 0xFF down, and the sign bit negates. */
  lemma TableIsMonotone(c: byte, d: byte)
    requires 0x80 <= c < d
    ensures MulawToLinear(d) < MulawToLinear(c)
    ensures MulawToLinear(d - 0x80) == -MulawToLinear(d)
  {
    hide Biased;
    var x, y := 255 - c, 255 - d;
    StepsAscend((y / 16) % 8, y % 16, (x / 16) % 8, x % 16);
  }

  /** What the encoder and the decoder do to every sample: within (|x| + 132) / 32 up to the clip, full scale beyond. */
  lemma EverySampleSurvives(x: int16, code: byte)
    requires Encodes(x, code)
    ensures Abs(x) <= 32635 ==> 32 * Abs(MulawToLinear(code) - x) <= Abs(x) + 132
    ensures x > 32635 ==> MulawToLinear(code) == 32124
    ensures x < -32635 ==> MulawToLinear(code) == -32124
  {
    RoundTripError(x, code);
    if Abs(x) > 32635 { ClippedIsFullScale(x, code); }
  }

  lemma ClippedIsFullScale(x: int16, code: byte)
    requires Encodes(x, code) && Abs(x) > 32635
    ensures MulawToLinear(code) == if x < 0 then -32124 else 32124
  {
    hide MulawToLinear, Pack, Biased, Mantissa, InSegment;
    var v := 32767;
    assert v == Abs(Clipped(x)) + BIAS;
    var e: nat :| EncodesIn(x, code, e);
    TopSegment(e);
    Fields(x < 0, 7, 15);
    FullScale();
  }

  lemma TopSegment(e: nat)
    requires InSegment(32767, e)
    ensures e == 7 && Mantissa(32767, 7) == 15
  {
    hide Pow2;
    SmallPowers();
  }

  lemma FullScale()
    ensures Biased(7, 15) - BIAS == 32124
  {
    hide Pow2;
    SmallPowers();
  }
}
