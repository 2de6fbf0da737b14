// The reading side of the socket: a fixed buffer filled by reads of any size,
// parsed in place, with the unparsed tail carried over to the next read.

module Pump {
  import opened Words
  import opened Audio
  import opened Wire

  const BUFFER_BYTES: nat := 0x1_0000

  /** A frame without a produce stamp gets the reader's clock. */
  function Stamped(f: AudioFrame, nowNs: uint64): AudioFrame {
    if f.hdr.tProduceNs == 0 then f.(hdr := f.hdr.(tProduceNs := nowNs)) else f
  }

  /** What reaches the queue of the frames parsed: the k-th is stamped at clock(k), and shed if full(k). */
  function Deliver(fs: seq<AudioFrame>, clock: nat -> uint64, full: nat -> bool): (seq<AudioFrame>, nat) {
    if fs == [] then ([], 0)
    else
      var k := |fs| - 1;
      var (d, drops) := Deliver(fs[..k], clock, full);
      if full(k) then (d, drops + 1) else (d + [Stamped(fs[k], clock(k))], drops)
  }

  /** Every parsed frame is either delivered or counted. */
  lemma {:induction false} DeliverConserves(fs: seq<AudioFrame>, clock: nat -> uint64, full: nat -> bool)
    ensures |Deliver(fs, clock, full).0| + Deliver(fs, clock, full).1 == |fs|
    ensures (forall k :: 0 <= k < |fs| ==> !full(k) && fs[k].hdr.tProduceNs != 0)
      ==> Deliver(fs, clock, full) == (fs, 0)
  {
    if fs != [] {
      DeliverConserves(fs[..|fs| - 1], clock, full);
      assert fs == fs[..|fs| - 1] + [fs[|fs| - 1]];
    }
  }

  /** The inner loop: parse whole frames off the front of the buffer. */
  method Drain(buf: array<byte>, filled: nat, clock: nat -> uint64, full: nat -> bool,
               delivered: seq<AudioFrame>, drops: nat, count: nat, ghost fs: seq<AudioFrame>)
    returns (offset: nat, oversized: bool, delivered': seq<AudioFrame>, drops': nat, count': nat)
    requires filled <= buf.Length && count == |fs| && (delivered, drops) == Deliver(fs, clock, full)
    ensures var (more, end) := Parse(buf[..filled]);
      && (delivered', drops') == Deliver(fs + more, clock, full) && count' == |fs + more|
      && oversized == end.Oversized?
      && (!oversized ==> offset <= filled && end == Waiting(buf[offset..filled]))
  {
    hide DecodeFrame, FromLE, Parse, Deliver;
    offset, oversized, delivered', drops', count' := 0, false, delivered, drops, count;
    ghost var done, bytes := [], buf[..];
    assert fs + [] == fs && bytes[0..filled] == buf[..filled];
    ghost var whole := Parse(bytes[0..filled]);
    assert [] + whole.0 == whole.0;
    while filled - offset >= LENGTH_BYTES
      invariant offset <= filled && !oversized
      invariant count' == |fs + done| && (delivered', drops') == Deliver(fs + done, clock, full)
      invariant whole == (done + Parse(bytes[offset..filled]).0, Parse(bytes[offset..filled]).1)
      decreases filled - offset
    {
      ghost var s := bytes[offset..filled];
      ParseCases(s);
      SliceOfSlice(bytes, offset, filled, 0, LENGTH_BYTES);
      var payloadLen := FromLE(buf[offset..offset + LENGTH_BYTES]);
      assert done + [] == done;
      if payloadLen > MAX_WIRE_PAYLOAD {
        oversized := true;
        return;
      }
      var need := LENGTH_BYTES + HEADER_BYTES + payloadLen;
      if filled - offset < need { break; }
      var frame := ReadFrame(buf, offset, filled, payloadLen);
      SliceOfSlice(bytes, offset, filled, need, filled - offset);
      assert done + ([frame] + Parse(s[need..]).0) == done + [frame] + Parse(s[need..]).0;
      DeliverOne(fs + done, frame, clock, full);
      assert fs + (done + [frame]) == fs + done + [frame];
      if full(count') { drops' := drops' + 1; } else { delivered' := delivered' + [Stamped(frame, clock(count'))]; }
      done := done + [frame];
      count' := count' + 1;
      offset := offset + need;
    }
    ParseCases(bytes[offset..filled]);
    SliceOfSlice(bytes, offset, filled, 0, Min(LENGTH_BYTES, filled - offset));
    assert done + [] == done;
  }

  lemma SliceOfSlice(s: seq<byte>, lo: nat, hi: nat, i: nat, j: nat)
    requires lo <= hi <= |s| && i <= j <= hi - lo
    ensures s[lo..hi][i..j] == s[lo + i..lo + j]
  {
    forall k | 0 <= k < j - i ensures s[lo..hi][i..j][k] == s[lo + i..lo + j][k] {
      assert s[lo..hi][i + k] == s[lo + i + k];
    }
  }

  /** Copy one frame out of the buffer: header, payload, and the length from the wire. */
  method ReadFrame(buf: array<byte>, offset: nat, filled: nat, payloadLen: nat) returns (frame: AudioFrame)
    requires offset <= filled <= buf.Length && payloadLen <= MAX_WIRE_PAYLOAD
    requires LENGTH_BYTES + HEADER_BYTES + payloadLen <= filled - offset
    requires payloadLen == FromLE(buf[offset..offset + LENGTH_BYTES])
    ensures PayloadLen(buf[offset..filled]) == payloadLen && frame == DecodeFrame(buf[offset..filled])
  {
    hide FromLE, DecodeHeader;
    ghost var bytes := buf[..];
    var at := offset + LENGTH_BYTES;
    var body := at + HEADER_BYTES;
    SliceOfSlice(bytes, offset, filled, 0, LENGTH_BYTES);
    SliceOfSlice(bytes, offset, filled, LENGTH_BYTES, LENGTH_BYTES + HEADER_BYTES);
    SliceOfSlice(bytes, offset, filled, LENGTH_BYTES + HEADER_BYTES, LENGTH_BYTES + HEADER_BYTES + payloadLen);
    frame := RawFrame(DecodeHeader(buf[at..body]).(byteLen := payloadLen),
                      buf[body..body + payloadLen] + Zeros(PAYLOAD_BYTES - payloadLen));
  }

  lemma DeliverOne(fs: seq<AudioFrame>, f: AudioFrame, clock: nat -> uint64, full: nat -> bool)
    ensures var (d, n) := Deliver(fs, clock, full);
      Deliver(fs + [f], clock, full) == if full(|fs|) then (d, n + 1) else (d + [Stamped(f, clock(|fs|))], n)
  {
    assert (fs + [f])[..|fs|] == fs;
  }

  /** The reader against a byte stream that the kernel hands over in pieces of whatever sizes it likes. */
  method ReadAll(stream: seq<byte>, sizes: seq<nat>, clock: nat -> uint64, full: nat -> bool)
    returns (delivered: seq<AudioFrame>, drops: nat, consumed: nat)
    ensures consumed <= |stream|
    ensures (delivered, drops) == Deliver(Parse(stream[..consumed]).0, clock, full)
    ensures Parse(stream[..consumed]).1.Waiting? && (forall n :: n in sizes ==> n > 0) && |sizes| >= |stream|
      ==> consumed == |stream|
  {
    hide Parse, Deliver;
    var buf := new byte[BUFFER_BYTES](_ => 0);
    var filled: nat := 0;
    var count := 0;
    delivered, drops, consumed := [], 0, 0;
    ghost var fs: seq<AudioFrame> := [];
    NothingToParse();
    NothingDelivered(clock, full);
    assert stream[..0] == [] && buf[..0] == [];
    var i := 0;
    while i < |sizes|
      invariant i <= |sizes| && consumed <= |stream| && filled < MAX_WIRE_FRAME
      invariant Parse(stream[..consumed]) == (fs, Waiting(buf[..filled]))
      invariant count == |fs| && (delivered, drops) == Deliver(fs, clock, full)
      invariant (forall n :: n in sizes ==> n > 0) ==> i <= consumed
    {
      // Room is never zero: the carried tail is shorter than one maximal frame.
      var n := Min(sizes[i], Min(buf.Length - filled, |stream| - consumed));
      if n <= 0 {
        assert sizes[i] in sizes;
        return;
      }
      var oversized;
      oversized, filled, delivered, drops, count := TakeRead(buf, filled, stream, consumed, n, clock, full,
                                                             delivered, drops, count, fs);
      consumed := consumed + n;
      fs := Parse(stream[..consumed]).0;
      if oversized { return; }
      i := i + 1;
    }
  }

  /** One read: append what arrived, parse, and carry the tail over. */
  method TakeRead(buf: array<byte>, filled: nat, stream: seq<byte>, consumed: nat, n: nat,
                  clock: nat -> uint64, full: nat -> bool,
                  delivered: seq<AudioFrame>, drops: nat, count: nat, ghost fs: seq<AudioFrame>)
    returns (oversized: bool, filled': nat, delivered': seq<AudioFrame>, drops': nat, count': nat)
    requires buf.Length == BUFFER_BYTES && filled + n <= buf.Length && consumed + n <= |stream|
    requires Parse(stream[..consumed]) == (fs, Waiting(buf[..filled]))
    requires count == |fs| && (delivered, drops) == Deliver(fs, clock, full)
    modifies buf
    ensures var (fs', end) := Parse(stream[..consumed + n]);
      && (delivered', drops') == Deliver(fs', clock, full) && count' == |fs'|
      && oversized == end.Oversized?
      && (!oversized ==> filled' < MAX_WIRE_FRAME && end == Waiting(buf[..filled']))
  {
    hide Parse, Deliver;
    Receive(buf, filled, stream, consumed, n);
    assert stream[..consumed + n] == stream[..consumed] + stream[consumed..consumed + n];
    ParseResumes(stream[..consumed], stream[consumed..consumed + n]);
    var offset;
    offset, oversized, delivered', drops', count' := Drain(buf, filled + n, clock, full, delivered, drops, count, fs);
    filled' := filled + n;
    if oversized { return; }
    CarriedIsShort(buf[..filled']);
    if offset > 0 {
      Compact(buf, offset, filled');
      filled' := filled' - offset;
    }
    // The desync guard: the carried tail never fills the buffer, so it never fires.
    var left: int := filled';
    if left == buf.Length { left := 0; }
    filled' := left;
  }

  /** read(): n bytes of the stream land behind what is already there. */
  method Receive(buf: array<byte>, filled: nat, stream: seq<byte>, consumed: nat, n: nat)
    requires filled + n <= buf.Length && consumed + n <= |stream|
    modifies buf
    ensures buf[..filled + n] == old(buf[..filled]) + stream[consumed..consumed + n]
  {
    forall k | 0 <= k < n { buf[filled + k] := stream[consumed + k]; }
  }

  /** memmove(): the unparsed tail moves to the front. */
  method Compact(buf: array<byte>, offset: nat, filled: nat)
    requires offset <= filled <= buf.Length
    modifies buf
    ensures buf[..filled - offset] == old(buf[offset..filled])
  {
    forall k | 0 <= k < filled - offset { buf[k] := buf[offset + k]; }
  }

  lemma NothingDelivered(clock: nat -> uint64, full: nat -> bool)
    ensures Deliver([], clock, full) == ([], 0)
  {
  }

  /** However much of the written stream has been read: exactly the frames written whole so far are parsed, in order,
      and every one of them is delivered or counted as shed. */
  lemma FragmentationIsInvisible(written: seq<AudioFrame>, consumed: nat, clock: nat -> uint64, full: nat -> bool)
    requires consumed <= |EncodeAll(written)|
    ensures var parsed := Parse(EncodeAll(written)[..consumed]);
      && parsed.0 == CanonicalAll(written[..WholeFrames(written, consumed)])
      && (consumed == |EncodeAll(written)| ==> parsed == (CanonicalAll(written), Waiting([])))
      && parsed.1.Waiting? && |parsed.1.rest| < MAX_WIRE_FRAME < BUFFER_BYTES
      && |Deliver(parsed.0, clock, full).0| + Deliver(parsed.0, clock, full).1 == WholeFrames(written, consumed)
  {
    hide Parse, Deliver, EncodeAll;
    PrefixRoundTrip(written, consumed);
    CarriedIsShort(EncodeAll(written)[..consumed]);
    DeliverConserves(Parse(EncodeAll(written)[..consumed]).0, clock, full);
    assert written[..|written|] == written;
  }

  /** ks are the frames of fs that the queue took, in order, and d is what it was given for them. */
  ghost predicate Picks(ks: seq<nat>, fs: seq<AudioFrame>, clock: nat -> uint64, full: nat -> bool,
                        d: seq<AudioFrame>) {
    && |ks| == |d|
    && (forall i, j :: 0 <= i < j < |ks| ==> ks[i] < ks[j])
    && (forall k: nat :: k in ks <==> k < |fs| && !full(k))
    && (forall j :: 0 <= j < |ks| ==> ks[j] < |fs| && d[j] == Stamped(fs[ks[j]], clock(ks[j])))
  }

  lemma PicksOneMore(ks: seq<nat>, fs: seq<AudioFrame>, f: AudioFrame, clock: nat -> uint64, full: nat -> bool,
                     d: seq<AudioFrame>)
    requires Picks(ks, fs, clock, full, d)
    ensures if full(|fs|) then Picks(ks, fs + [f], clock, full, d)
            else Picks(ks + [|fs|], fs + [f], clock, full, d + [Stamped(f, clock(|fs|))])
  {
    hide Stamped;
    assert forall i :: 0 <= i < |ks| ==> ks[i] in ks;
  }

  /** What is delivered is an in-order, restamped subsequence: the frames that found room, all of them and no others. */
  lemma {:induction false} DeliverPicks(fs: seq<AudioFrame>, clock: nat -> uint64, full: nat -> bool)
    returns (ks: seq<nat>)
    ensures Picks(ks, fs, clock, full, Deliver(fs, clock, full).0)
  {
    ks := [];
    if fs != [] {
      var k := |fs| - 1;
      ks := DeliverPicks(fs[..k], clock, full);
      PicksOneMore(ks, fs[..k], fs[k], clock, full, Deliver(fs[..k], clock, full).0);
      assert fs == fs[..k] + [fs[k]];
      if !full(k) { ks := ks + [k]; }
    }
  }

  lemma {:induction false} CanonicalAt(fs: seq<AudioFrame>, n: nat, k: nat)
    requires k < n <= |fs|
    ensures CanonicalAll(fs[..n])[k] == Canonical(fs[k])
  {
    hide Canonical;
    if k > 0 {
      CanonicalAt(fs[1..], n - 1, k - 1);
      assert fs[..n][1..] == fs[1..][..n - 1];
    }
  }

  /** d is frame w as written, its audio and every field, but that a zero stamp has become nowNs. */
  predicate IsWritten(d: AudioFrame, w: AudioFrame, nowNs: uint64) {
    && AudioOf(d) == AudioOf(w)
    && d.hdr == if w.hdr.tProduceNs == 0 then w.hdr.(tProduceNs := nowNs) else w.hdr
  }

  lemma StampedIsWritten(w: AudioFrame, nowNs: uint64)
    ensures IsWritten(Stamped(Canonical(w), nowNs), w, nowNs)
  {
  }

  lemma WrittenIsStamped(d: AudioFrame, w: AudioFrame, nowNs: uint64)
    requires IsWritten(d, w, nowNs)
    ensures nowNs != 0 ==> d.hdr.tProduceNs != 0
  {
  }

  /** Writer to queue over reads of any sizes: the queue is given, in order and restamped, exactly those of the frames
      written whole so far that found room; the rest are counted; and reads that go on long enough reach the end. */
  method ReadWritten(written: seq<AudioFrame>, sizes: seq<nat>, clock: nat -> uint64, full: nat -> bool)
    returns (delivered: seq<AudioFrame>, drops: nat, consumed: nat, ghost whole: nat, ghost ks: seq<nat>)
    ensures consumed <= |EncodeAll(written)| && whole == WholeFrames(written, consumed) <= |written|
    ensures |ks| == |delivered| && |delivered| + drops == whole
    ensures forall i, j :: 0 <= i < j < |ks| ==> ks[i] < ks[j]
    ensures forall k: nat :: k in ks <==> k < whole && !full(k)
    ensures forall j :: 0 <= j < |ks| ==>
      && ks[j] < |written|
      && delivered[j] == Stamped(Canonical(written[ks[j]]), clock(ks[j]))
      && IsWritten(delivered[j], written[ks[j]], clock(ks[j]))
    ensures (forall k :: clock(k) != 0) ==> forall j :: 0 <= j < |delivered| ==> delivered[j].hdr.tProduceNs != 0
    ensures (forall n :: n in sizes ==> n > 0) && |sizes| >= |EncodeAll(written)| ==> whole == |written|
  {
    hide Parse, Deliver, EncodeAll, Canonical, CanonicalAll, Stamped, AudioOf, IsWritten;
    delivered, drops, consumed := ReadAll(EncodeAll(written), sizes, clock, full);
    whole := WholeFrames(written, consumed);
    PrefixRoundTrip(written, consumed);
    ghost var fs := CanonicalAll(written[..whole]);
    DeliverConserves(fs, clock, full);
    ks := DeliverPicks(fs, clock, full);
    forall j | 0 <= j < |ks|
      ensures ks[j] < |written| && delivered[j] == Stamped(Canonical(written[ks[j]]), clock(ks[j]))
      ensures IsWritten(delivered[j], written[ks[j]], clock(ks[j]))
    {
      CanonicalAt(written, whole, ks[j]);
      StampedIsWritten(written[ks[j]], clock(ks[j]));
    }
    forall j | 0 <= j < |ks| && (forall k :: clock(k) != 0) ensures delivered[j].hdr.tProduceNs != 0 {
      WrittenIsStamped(delivered[j], written[ks[j]], clock(ks[j]));
    }
  }
}
