// The unix-socket wire format: a little-endian length, the packed 40-byte header,
// and that many payload bytes; written by the producer, parsed off any prefix.

module Wire {
  import opened Words
  import opened Audio

  const LENGTH_BYTES: nat := 4
  const HEADER_BYTES: nat := 40
  const MAX_WIRE_PAYLOAD: nat := PAYLOAD_BYTES
  /** The longest frame there is on the wire. */
  const MAX_WIRE_FRAME: nat := LENGTH_BYTES + HEADER_BYTES + MAX_WIRE_PAYLOAD

  // ------------------------------------------------------ little-endian integers

  function Pow256(n: nat): (p: nat)
    ensures 1 <= p
  {
    if n == 0 then 1 else 256 * Pow256(n - 1)
  }

  function ToLE(x: nat, n: nat): (s: seq<byte>)
    ensures |s| == n
  {
    if n == 0 then [] else [x % 256] + ToLE(x / 256, n - 1)
  }

  function FromLE(s: seq<byte>): (x: nat)
    ensures x < Pow256(|s|)
  {
    if s == [] then 0 else s[0] + 256 * FromLE(s[1..])
  }

  lemma {:induction false} FromToLE(x: nat, n: nat)
    requires x < Pow256(n)
    ensures FromLE(ToLE(x, n)) == x
  {
    if n > 0 {
      FromToLE(x / 256, n - 1);
      assert ToLE(x, n)[1..] == ToLE(x / 256, n - 1);
    }
  }

  lemma WordSizes()
    ensures Pow256(2) == 0x1_0000 && Pow256(4) == TWO_32 && Pow256(8) == TWO_64
  {
    assert Pow256(2) == 0x1_0000;
    assert Pow256(4) == 256 * 256 * Pow256(2);
    assert Pow256(6) == 256 * 256 * Pow256(4);
    assert Pow256(8) == 256 * 256 * Pow256(6);
  }

  // ------------------------------------------------------ headers

  function EncodeHeader(h: FrameHeader): (s: seq<byte>)
    ensures |s| == HEADER_BYTES
  {
    ToLE(h.seqNo, 8) + ToLE(h.tProduceNs, 8) + ToLE(h.tCaptureNs, 8) + ToLE(h.byteLen, 4)
      + ToLE(h.sampleRate, 4) + ToLE(h.format, 2) + ToLE(h.flags, 2) + ToLE(h.sessionId, 4)
  }

  function DecodeHeader(s: seq<byte>): FrameHeader
    requires |s| == HEADER_BYTES
  {
    WordSizes();
    FrameHeader(FromLE(s[0..8]), FromLE(s[8..16]), FromLE(s[16..24]), FromLE(s[24..28]),
                FromLE(s[28..32]), FromLE(s[32..34]), FromLE(s[34..36]), FromLE(s[36..40]))
  }

  lemma HeaderFields(h: FrameHeader)
    ensures var s := EncodeHeader(h);
      && s[0..8] == ToLE(h.seqNo, 8)
      && s[8..16] == ToLE(h.tProduceNs, 8)
      && s[16..24] == ToLE(h.tCaptureNs, 8)
      && s[24..28] == ToLE(h.byteLen, 4)
      && s[28..32] == ToLE(h.sampleRate, 4)
      && s[32..34] == ToLE(h.format, 2)
      && s[34..36] == ToLE(h.flags, 2)
      && s[36..40] == ToLE(h.sessionId, 4)
  {
    hide ToLE;
    var low := ToLE(h.seqNo, 8) + ToLE(h.tProduceNs, 8) + ToLE(h.tCaptureNs, 8) + ToLE(h.byteLen, 4);
    var high := ToLE(h.sampleRate, 4) + ToLE(h.format, 2) + ToLE(h.flags, 2) + ToLE(h.sessionId, 4);
    var s := EncodeHeader(h);
    assert s == low + high;
    assert low[0..8] == ToLE(h.seqNo, 8) && low[8..16] == ToLE(h.tProduceNs, 8);
    assert low[16..24] == ToLE(h.tCaptureNs, 8) && low[24..28] == ToLE(h.byteLen, 4);
    assert high[0..4] == ToLE(h.sampleRate, 4) && high[4..6] == ToLE(h.format, 2);
    assert high[6..8] == ToLE(h.flags, 2) && high[8..12] == ToLE(h.sessionId, 4);
    assert forall k :: 0 <= k < 28 ==> s[k] == low[k];
    assert forall k :: 0 <= k < 12 ==> s[28 + k] == high[k];
    assert s[0..8] == low[0..8];
    assert s[8..16] == low[8..16];
    assert s[16..24] == low[16..24];
    assert s[24..28] == low[24..28];
    assert s[28..32] == high[0..4];
    assert s[32..34] == high[4..6];
    assert s[34..36] == high[6..8];
    assert s[36..40] == high[8..12];
  }

  lemma HeaderRoundTrip(h: FrameHeader)
    ensures DecodeHeader(EncodeHeader(h)) == h
  {
    hide ToLE, FromLE, Pow256, EncodeHeader;
    WordSizes();
    HeaderFields(h);
    FromToLE(h.seqNo, 8);
    FromToLE(h.tProduceNs, 8);
    FromToLE(h.tCaptureNs, 8);
    FromToLE(h.byteLen, 4);
    FromToLE(h.sampleRate, 4);
    FromToLE(h.format, 2);
    FromToLE(h.flags, 2);
    FromToLE(h.sessionId, 4);
  }

  // ------------------------------------------------------ frames

  /** What the producer writes for a frame. */
  function Encode(f: AudioFrame): (s: seq<byte>)
    ensures |s| == LENGTH_BYTES + HEADER_BYTES + f.hdr.byteLen
  {
    ToLE(f.hdr.byteLen, 4) + EncodeHeader(f.hdr) + AudioOf(f)
  }

  function EncodeAll(fs: seq<AudioFrame>): seq<byte> {
    if fs == [] then [] else Encode(fs[0]) + EncodeAll(fs[1..])
  }

  /** The frame with the unused tail of its slot zeroed, as a parsed one has it. */
  function Canonical(f: AudioFrame): AudioFrame {
    f.(payload := AudioOf(f) + Zeros(PAYLOAD_BYTES - f.hdr.byteLen))
  }

  function PayloadLen(s: seq<byte>): (n: nat)
    requires |s| >= LENGTH_BYTES
  {
    FromLE(s[..LENGTH_BYTES])
  }

  /** The frame at the front of s. */
  function DecodeFrame(s: seq<byte>): AudioFrame
    requires |s| >= LENGTH_BYTES && PayloadLen(s) <= MAX_WIRE_PAYLOAD
    requires |s| >= LENGTH_BYTES + HEADER_BYTES + PayloadLen(s)
  {
    var len := PayloadLen(s);
    var hdr := DecodeHeader(s[LENGTH_BYTES..LENGTH_BYTES + HEADER_BYTES]).(byteLen := len);
    var body := s[LENGTH_BYTES + HEADER_BYTES..LENGTH_BYTES + HEADER_BYTES + len];
    RawFrame(hdr, body + Zeros(PAYLOAD_BYTES - len))
  }

  /** Where parsing stops: waiting for more bytes, or at a length no frame can have. */
  datatype Ending = Waiting(rest: seq<byte>) | Oversized

  /** All the frames a stretch of the stream holds. */
  function Parse(s: seq<byte>): (seq<AudioFrame>, Ending)
    decreases |s|
  {
    if |s| < LENGTH_BYTES then ([], Waiting(s))
    else if PayloadLen(s) > MAX_WIRE_PAYLOAD then ([], Oversized)
    else
      var need := LENGTH_BYTES + HEADER_BYTES + PayloadLen(s);
      if |s| < need then ([], Waiting(s))
      else
        var (fs, end) := Parse(s[need..]);
        ([DecodeFrame(s)] + fs, end)
  }

  /** One step of the parse, by how much of a frame is there. */
  lemma ParseCases(s: seq<byte>)
    ensures |s| < LENGTH_BYTES ==> Parse(s) == ([], Waiting(s))
    ensures |s| >= LENGTH_BYTES && PayloadLen(s) > MAX_WIRE_PAYLOAD ==> Parse(s) == ([], Oversized)
    ensures |s| >= LENGTH_BYTES && PayloadLen(s) <= MAX_WIRE_PAYLOAD ==>
      var need := LENGTH_BYTES + HEADER_BYTES + PayloadLen(s);
      Parse(s) == if |s| < need then ([], Waiting(s)) else ([DecodeFrame(s)] + Parse(s[need..]).0, Parse(s[need..]).1)
  {
  }

  /** What is carried over is shorter than one maximal frame. */
  lemma {:induction false} CarriedIsShort(s: seq<byte>)
    ensures Parse(s).1.Waiting? ==> |Parse(s).1.rest| < MAX_WIRE_FRAME
    decreases |s|
  {
    hide DecodeFrame, FromLE;
    if |s| >= LENGTH_BYTES && PayloadLen(s) <= MAX_WIRE_PAYLOAD {
      var need := LENGTH_BYTES + HEADER_BYTES + PayloadLen(s);
      if |s| >= need { CarriedIsShort(s[need..]); }
    }
  }

  /** Parsing may stop anywhere and resume with what is left: only the whole stream matters, not how it was cut. */
  lemma {:induction false} ParseResumes(a: seq<byte>, b: seq<byte>)
    ensures var (fs, end) := Parse(a);
      match end
      case Waiting(rest) => Parse(a + b) == (fs + Parse(rest + b).0, Parse(rest + b).1)
      case Oversized => Parse(a + b) == (fs, Oversized)
    decreases |a|
  {
    hide DecodeFrame, Parse, PayloadLen;
    ParseCases(a);
    assert [] + Parse(a + b).0 == Parse(a + b).0;
    if |a| >= LENGTH_BYTES {
      SameLength(a, b);
      ParseCases(a + b);
      var need := LENGTH_BYTES + HEADER_BYTES + PayloadLen(a);
      if PayloadLen(a) <= MAX_WIRE_PAYLOAD && |a| >= need {
        ParseResumes(a[need..], b);
        FrontFrame(a, b);
        FrontThenRest(DecodeFrame(a), a, b, need);
      }
    }
  }

  lemma SameLength(a: seq<byte>, b: seq<byte>)
    requires |a| >= LENGTH_BYTES
    ensures PayloadLen(a + b) == PayloadLen(a)
  {
    hide FromLE;
    assert (a + b)[..LENGTH_BYTES] == a[..LENGTH_BYTES];
  }

  /** Putting the front frame before what resuming after it gives. */
  lemma FrontThenRest(f: AudioFrame, a: seq<byte>, b: seq<byte>, need: nat)
    requires need <= |a|
    ensures (a + b)[need..] == a[need..] + b
    ensures Parse(a[need..]).1.Waiting? ==>
      var fs, more := Parse(a[need..]).0, Parse(Parse(a[need..]).1.rest + b).0;
      [f] + (fs + more) == [f] + fs + more
  {
    hide Parse;
  }

  /** The front frame does not depend on what follows it. */
  lemma FrontFrame(a: seq<byte>, b: seq<byte>)
    requires |a| >= LENGTH_BYTES && PayloadLen(a) <= MAX_WIRE_PAYLOAD
    requires |a| >= LENGTH_BYTES + HEADER_BYTES + PayloadLen(a)
    ensures PayloadLen(a + b) == PayloadLen(a) && DecodeFrame(a + b) == DecodeFrame(a)
  {
    hide FromLE, DecodeHeader;
    var h, n := LENGTH_BYTES + HEADER_BYTES, LENGTH_BYTES + HEADER_BYTES + PayloadLen(a);
    assert (a + b)[..LENGTH_BYTES] == a[..LENGTH_BYTES];
    assert (a + b)[LENGTH_BYTES..h] == a[LENGTH_BYTES..h];
    assert (a + b)[h..n] == a[h..n];
  }

  // ------------------------------------------------------ writer to parser

  /** An encoded frame parses back to itself, whatever follows. */
  lemma FrameRoundTrip(f: AudioFrame, t: seq<byte>)
    ensures Parse(Encode(f) + t) == ([Canonical(f)] + Parse(t).0, Parse(t).1)
  {
    hide ToLE, FromLE, DecodeHeader, EncodeHeader, Zeros;
    var s, n := Encode(f) + t, f.hdr.byteLen;
    var h := LENGTH_BYTES + HEADER_BYTES;
    WordSizes();
    FromToLE(n, 4);
    HeaderRoundTrip(f.hdr);
    assert s[..LENGTH_BYTES] == ToLE(n, 4);
    assert s[LENGTH_BYTES..h] == EncodeHeader(f.hdr);
    assert s[h..h + n] == AudioOf(f);
    assert s[h + n..] == t;
  }

  lemma PartialFrame(f: AudioFrame, k: nat)
    requires k < |Encode(f)|
    ensures Parse(Encode(f)[..k]) == ([], Waiting(Encode(f)[..k]))
  {
    hide ToLE, FromLE, DecodeHeader, EncodeHeader;
    var s := Encode(f)[..k];
    if k >= LENGTH_BYTES {
      WordSizes();
      FromToLE(f.hdr.byteLen, 4);
      assert s[..LENGTH_BYTES] == ToLE(f.hdr.byteLen, 4);
    }
  }

  function CanonicalAll(fs: seq<AudioFrame>): (r: seq<AudioFrame>)
    ensures |r| == |fs|
  {
    if fs == [] then [] else [Canonical(fs[0])] + CanonicalAll(fs[1..])
  }

  /** How many whole frames the first k bytes of the stream hold. */
  function WholeFrames(fs: seq<AudioFrame>, k: nat): (j: nat)
    ensures j <= |fs|
  {
    if fs == [] || k < |Encode(fs[0])| then 0 else 1 + WholeFrames(fs[1..], k - |Encode(fs[0])|)
  }

  /** However much of the written stream has arrived, parsing it gives exactly the frames written whole so far, in
      order, and waits for the rest of the next one. */
  lemma {:induction false} PrefixRoundTrip(fs: seq<AudioFrame>, k: nat)
    requires k <= |EncodeAll(fs)|
    ensures Parse(EncodeAll(fs)[..k]).0 == CanonicalAll(fs[..WholeFrames(fs, k)])
    ensures Parse(EncodeAll(fs)[..k]).1.Waiting?
    ensures k == |EncodeAll(fs)| ==> WholeFrames(fs, k) == |fs| && Parse(EncodeAll(fs)[..k]).1 == Waiting([])
  {
    hide Parse, Encode, Canonical;
    if fs == [] {
      NothingToParse();
    } else {
      var first, rest := Encode(fs[0]), EncodeAll(fs[1..]);
      if k < |first| {
        PartialFrame(fs[0], k);
        assert EncodeAll(fs)[..k] == first[..k];
      } else {
        var j := WholeFrames(fs[1..], k - |first|);
        PrefixRoundTrip(fs[1..], k - |first|);
        FrameRoundTrip(fs[0], rest[..k - |first|]);
        assert EncodeAll(fs)[..k] == first + rest[..k - |first|];
        assert fs[..j + 1][1..] == fs[1..][..j];
      }
    }
  }

  lemma NothingToParse()
    ensures Parse([]) == ([], Waiting([])) && EncodeAll([]) == []
  {
  }

  // ------------------------------------------------------ the layout

  /** A field of n bytes at an offset: its low byte first, then what is left of it. */
  predicate FieldAt(s: seq<byte>, offset: nat, n: nat, x: nat)
    requires offset + n <= |s|
    decreases n
  {
    n == 0 || (s[offset] == x % 256 && FieldAt(s, offset + 1, n - 1, x / 256))
  }

  lemma {:induction false} FieldIs(s: seq<byte>, offset: nat, n: nat, x: nat)
    requires offset + n <= |s| && s[offset..offset + n] == ToLE(x, n)
    ensures FieldAt(s, offset, n, x)
    decreases n
  {
    if n > 0 {
      assert s[offset] == s[offset..offset + n][0];
      assert s[offset + 1..offset + n] == s[offset..offset + n][1..];
      FieldIs(s, offset + 1, n - 1, x / 256);
    }
  }

  /** The header's layout: every field at its place, little-endian. */
  lemma HeaderLayout(h: FrameHeader)
    ensures var s := EncodeHeader(h);
      && FieldAt(s, 0, 8, h.seqNo) && FieldAt(s, 8, 8, h.tProduceNs) && FieldAt(s, 16, 8, h.tCaptureNs)
      && FieldAt(s, 24, 4, h.byteLen) && FieldAt(s, 28, 4, h.sampleRate)
      && FieldAt(s, 32, 2, h.format) && FieldAt(s, 34, 2, h.flags) && FieldAt(s, 36, 4, h.sessionId)
  {
    hide ToLE, FieldAt, EncodeHeader;
    var s := EncodeHeader(h);
    HeaderFields(h);
    FieldIs(s, 0, 8, h.seqNo);
    FieldIs(s, 8, 8, h.tProduceNs);
    FieldIs(s, 16, 8, h.tCaptureNs);
    FieldIs(s, 24, 4, h.byteLen);
    FieldIs(s, 28, 4, h.sampleRate);
    FieldIs(s, 32, 2, h.format);
    FieldIs(s, 34, 2, h.flags);
    FieldIs(s, 36, 4, h.sessionId);
  }

  /** On the wire: the payload's length, the header, the payload. */
  lemma FrameLayout(f: AudioFrame)
    ensures var s := Encode(f);
      && FieldAt(s, 0, 4, f.hdr.byteLen) && s[4..44] == EncodeHeader(f.hdr) && s[44..] == f.payload[..f.hdr.byteLen]
  {
    hide ToLE, FieldAt, EncodeHeader;
    assert Encode(f)[0..4] == ToLE(f.hdr.byteLen, 4);
    FieldIs(Encode(f), 0, 4, f.hdr.byteLen);
  }

  /** A length no frame can have stops the parse: what came before it is kept, what follows is not looked at. */
  lemma {:induction false} OversizedStops(fs: seq<AudioFrame>, bad: seq<byte>)
    requires |bad| >= 4 && FromLE(bad[..4]) > 1024
    ensures Parse(EncodeAll(fs) + bad) == (CanonicalAll(fs), Oversized)
  {
    hide Encode, Canonical, FromLE, DecodeFrame;
    if fs == [] {
      assert EncodeAll(fs) + bad == bad;
    } else {
      OversizedStops(fs[1..], bad);
      FrameRoundTrip(fs[0], EncodeAll(fs[1..]) + bad);
      assert EncodeAll(fs) + bad == Encode(fs[0]) + (EncodeAll(fs[1..]) + bad);
    }
  }
}
