// Frame energy: the integer accumulators behind peak and RMS, and what a trip
// through mu-law does to a frame's peak.

module Energy {
  import opened Words
  import opened Audio
  import opened Codec

  // ------------------------------------------------------ what is accumulated

  /** The greatest magnitude among the samples. */
  function Peak(s: seq<int16>): (p: nat)
    ensures p <= 32768
    ensures forall x :: x in s ==> Abs(x) <= p
    ensures s != [] ==> exists x :: x in s && Abs(x) == p
  {
    if s == [] then 0
    else
      var last := s[|s| - 1];
      assert s == s[..|s| - 1] + [last];
      assert last in s;
      Max(Peak(s[..|s| - 1]), Abs(last))
  }

  function SumSquares(s: seq<int16>): nat {
    if s == [] then 0
    else
      var last := s[|s| - 1];
      SumSquares(s[..|s| - 1]) + Abs(last) * Abs(last)
  }

  function Square(x: nat): nat { x * x }

  lemma SquareMonotone(x: nat, y: nat)
    requires x <= y
    ensures Square(x) <= Square(y)
  {
    assert (y - x) * (y + x) >= 0;
    assert (y - x) * (y + x) == y * y - x * x;
  }

  /** RMS lies between peak / sqrt(n) and peak: the two thresholds measure the same frame. */
  lemma {:induction false} EnergyBounds(s: seq<int16>)
    ensures s != [] ==> Square(Peak(s)) <= SumSquares(s)
    ensures SumSquares(s) <= |s| * Square(Peak(s))
    ensures SumSquares(s) <= |s| * 0x4000_0000
  {
    if s != [] {
      var rest, last := s[..|s| - 1], s[|s| - 1];
      EnergyBounds(rest);
      SquareMonotone(Peak(rest), Peak(s));
      SquareMonotone(Abs(last), Peak(s));
      SquareMonotone(Peak(s), 32768);
      ScaleUp(|rest|, Square(Peak(rest)), Square(Peak(s)));
      assert SumSquares(s) == SumSquares(rest) + Square(Abs(last));
      assert rest == [] ==> Peak(rest) == 0 && Square(0) == 0;
    }
  }

  lemma ScaleUp(n: nat, a: nat, b: nat)
    requires a <= b
    ensures n * a <= n * b && n * b + b == (n + 1) * b
  {
    assert n * (b - a) >= 0;
  }

  // ------------------------------------------------------ the loops

  /** The samples of a mu-law payload. */
  function MulawSamples(bytes: seq<byte>): (s: seq<int16>)
    ensures |s| == |bytes|
  {
    seq(|bytes|, i requires 0 <= i < |bytes| => MulawToLinear(bytes[i]))
  }

  /** Two little-endian bytes as a signed sample. */
  function Sample16(lo: byte, hi: byte): int16 {
    var u := lo + 256 * hi;
    if u < 0x8000 then u else u - 0x1_0000
  }

  /** The samples of a 16-bit payload; an odd byte at the end is ignored. */
  function PcmSamples(bytes: seq<byte>): (s: seq<int16>)
    ensures |s| == |bytes| / 2
  {
    seq(|bytes| / 2, i requires 0 <= i < |bytes| / 2 => Sample16(bytes[2 * i], bytes[2 * i + 1]))
  }

  lemma OneMoreSample(s: seq<int16>, i: nat)
    requires i < |s|
    ensures Peak(s[..i + 1]) == Max(Peak(s[..i]), Abs(s[i]))
    ensures SumSquares(s[..i + 1]) == SumSquares(s[..i]) + Abs(s[i]) * Abs(s[i])
  {
    assert s[..i + 1][..i] == s[..i];
  }

  method EnergyMulaw(bytes: seq<byte>, table: array<int16>) returns (peak: nat, sumSquares: nat)
    requires table.Length == 256 && forall i: byte :: table[i] == MulawToLinear(i)
    ensures peak == Peak(MulawSamples(bytes)) && sumSquares == SumSquares(MulawSamples(bytes))
    ensures bytes != [] ==> peak * peak <= sumSquares <= |bytes| * (peak * peak)
  {
    hide Peak, SumSquares, MulawToLinear;
    ghost var s := MulawSamples(bytes);
    NoSamples();
    peak, sumSquares := 0, 0;
    var i := 0;
    assert s[..0] == [];
    while i < |bytes|
      invariant i <= |bytes| && peak == Peak(s[..i]) && sumSquares == SumSquares(s[..i])
    {
      OneMoreSample(s, i);
      var sample := table[bytes[i]];
      var magnitude := Abs(sample);
      if magnitude > peak { peak := magnitude; }
      sumSquares := sumSquares + magnitude * magnitude;
      i := i + 1;
    }
    assert s[..i] == s;
    EnergyBounds(s);
  }

  method EnergyPcm16(bytes: seq<byte>) returns (peak: nat, sumSquares: nat, n: nat)
    ensures n == |bytes| / 2
    ensures peak == Peak(PcmSamples(bytes)) && sumSquares == SumSquares(PcmSamples(bytes))
    ensures n > 0 ==> peak * peak <= sumSquares <= n * (peak * peak)
    ensures |bytes| <= PAYLOAD_BYTES ==> sumSquares < 0x8000_0000_0000_0000
  {
    hide Peak, SumSquares, Sample16, Abs, Square, PcmSamples;
    ghost var s := PcmSamples(bytes);
    NoSamples();
    n, peak, sumSquares := |bytes| / 2, 0, 0;
    var i := 0;
    assert s[..0] == [];
    while i < n
      invariant i <= n && peak == Peak(s[..i]) && sumSquares == SumSquares(s[..i])
    {
      OneMoreSample(s, i);
      PcmAt(bytes, i);
      var sample := Sample16(bytes[2 * i], bytes[2 * i + 1]);
      var magnitude := Abs(sample);
      if magnitude > peak { peak := magnitude; }
      sumSquares := sumSquares + magnitude * magnitude;
      i := i + 1;
    }
    assert s[..i] == s;
    SumFits(s);
  }

  lemma PcmAt(bytes: seq<byte>, i: nat)
    requires i < |bytes| / 2
    ensures 2 * i + 1 < |bytes| && PcmSamples(bytes)[i] == Sample16(bytes[2 * i], bytes[2 * i + 1])
  {
  }

  /** The bounds in machine terms: a whole frame's sum fits a 63-bit counter. */
  lemma SumFits(s: seq<int16>)
    ensures s != [] ==> Peak(s) * Peak(s) <= SumSquares(s) <= |s| * (Peak(s) * Peak(s))
    ensures |s| <= PAYLOAD_BYTES ==> SumSquares(s) < 0x8000_0000_0000_0000
  {
    hide Peak, SumSquares;
    EnergyBounds(s);
  }

  lemma NoSamples()
    ensures Peak([]) == 0 && SumSquares([]) == 0
  {
  }

  // ------------------------------------------------------ mu-law and the peak

  /** codes encode the samples, one by one. */
  ghost predicate EncodesAll(samples: seq<int16>, codes: seq<byte>) {
    |samples| == |codes| && forall i :: 0 <= i < |codes| ==> Encodes(samples[i], codes[i])
  }

  function ClippedAll(samples: seq<int16>): (s: seq<int16>)
    ensures |s| == |samples|
  {
    seq(|samples|, i requires 0 <= i < |samples| => Clipped(samples[i]))
  }

  /** y is within one part in 32 of x, plus the bias. */
  predicate Near(x: int, y: int) { 32 * Abs(y - x) <= Abs(x) + BIAS }

  lemma PeakIsReached(s: seq<int16>) returns (i: nat)
    requires s != []
    ensures i < |s| && Abs(s[i]) == Peak(s)
  {
    var p := Peak(s);
    var x: int16 :| x in s && Abs(x) == p;
    i :| i < |s| && s[i] == x;
  }

  lemma PeakBounds(s: seq<int16>, i: nat)
    requires i < |s|
    ensures Abs(s[i]) <= Peak(s)
  {
    assert s[i] in s;
  }

  /** Two sequences that are near sample by sample have peaks that are near. */
  lemma NearSamplesNearPeaks(s: seq<int16>, h: seq<int16>)
    requires |s| == |h| && s != []
    requires forall i :: 0 <= i < |s| ==> Near(s[i], h[i])
    ensures Near(Peak(s), Peak(h))
  {
    hide Peak;
    var i := PeakIsReached(s);
    var j := PeakIsReached(h);
    PeakBounds(h, i);
    PeakBounds(s, j);
    assert Near(s[i], h[i]) && Near(s[j], h[j]);
  }

  lemma SampleSurvives(samples: seq<int16>, codes: seq<byte>, i: nat)
    requires EncodesAll(samples, codes) && i < |codes|
    ensures Near(ClippedAll(samples)[i], MulawSamples(codes)[i])
  {
    hide MulawToLinear, Encodes, Clipped;
    RoundTripError(samples[i], codes[i]);
  }

  /** The peak the gate sees through mu-law is within one part in 32 of the peak that was sent, plus the bias. */
  lemma PeakSurvivesMulaw(samples: seq<int16>, codes: seq<byte>)
    requires EncodesAll(samples, codes)
    ensures Near(Peak(ClippedAll(samples)), Peak(MulawSamples(codes)))
  {
    hide Peak, MulawSamples, ClippedAll, Near;
    PeakOfNothing(samples, codes);
    if samples != [] {
      forall i | 0 <= i < |codes|
        ensures Near(ClippedAll(samples)[i], MulawSamples(codes)[i])
      {
        SampleSurvives(samples, codes, i);
      }
      NearSamplesNearPeaks(ClippedAll(samples), MulawSamples(codes));
    }
  }

  lemma PeakOfNothing(samples: seq<int16>, codes: seq<byte>)
    requires EncodesAll(samples, codes)
    ensures samples == [] ==> Near(Peak(ClippedAll(samples)), Peak(MulawSamples(codes)))
  {
    NoSamples();
  }

  // ------------------------------------------------------ what the sums are

  /** Squares add up, whatever way the samples are grouped. */
  lemma {:induction false} SquaresAddUp(s: seq<int16>, t: seq<int16>)
    ensures SumSquares(s + t) == SumSquares(s) + SumSquares(t)
    ensures |t| == 1 ==> SumSquares(t) == Abs(t[0]) * Abs(t[0])
  {
    if |t| == 1 {
      SquareOfOne(t[0]);
      assert t == [t[0]];
    }
    if t == [] {
      assert s + t == s;
    } else {
      SquaresAddUp(s, t[..|t| - 1]);
      assert (s + t)[..|s + t| - 1] == s + t[..|t| - 1];
    }
  }

  lemma SquareOfOne(x: int16)
    ensures SumSquares([x]) == Abs(x) * Abs(x)
  {
    assert [x][..0] == [];
  }

  /** The two bytes of a sample, least significant first, in two's complement. */
  function BytesOf(x: int16): (b: seq<byte>)
    ensures |b| == 2
  {
    var u := if x < 0 then x as int + 0x1_0000 else x as int;
    [u % 256, u / 256]
  }

  function PcmBytes(s: seq<int16>): (b: seq<byte>)
    ensures |b| == 2 * |s|
  {
    if s == [] then [] else PcmBytes(s[..|s| - 1]) + BytesOf(s[|s| - 1])
  }

  lemma SampleRoundTrip(x: int16)
    ensures Sample16(BytesOf(x)[0], BytesOf(x)[1]) == x
  {
  }

  lemma {:induction false} PcmBytesAt(s: seq<int16>, i: nat)
    requires i < |s|
    ensures PcmBytes(s)[2 * i] == BytesOf(s[i])[0] && PcmBytes(s)[2 * i + 1] == BytesOf(s[i])[1]
  {
    hide BytesOf;
    if i < |s| - 1 { PcmBytesAt(s[..|s| - 1], i); }
  }

  /** Samples sent as 16-bit little-endian are the samples measured, and a stray byte after them changes nothing. */
  lemma PcmRoundTrip(s: seq<int16>, stray: seq<byte>)
    requires |stray| <= 1
    ensures PcmSamples(PcmBytes(s) + stray) == s
  {
    hide Sample16, BytesOf, PcmBytes;
    var bytes := PcmBytes(s) + stray;
    assert |PcmSamples(bytes)| == |s|;
    forall i | 0 <= i < |s| ensures PcmSamples(bytes)[i] == s[i] {
      PcmBytesAt(s, i);
      SampleRoundTrip(s[i]);
      PcmAt(bytes, i);
    }
  }
}
