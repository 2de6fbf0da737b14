// The frame as the producer lays it out and the event that comes back.

module Audio {
  import opened Words

  const PAYLOAD_BYTES: nat := 1024

  type byte = x: nat | x < 256
  type uint16 = x: nat | x < 0x1_0000

  datatype FrameHeader = FrameHeader(
    seqNo: uint64,
    tProduceNs: uint64,
    tCaptureNs: uint64,
    byteLen: uint32,
    sampleRate: uint32,
    format: uint16,
    flags: uint16,
    sessionId: uint32)

  datatype RawFrame = RawFrame(hdr: FrameHeader, payload: seq<byte>)

  function Zeros(n: nat): (s: seq<byte>)
    ensures |s| == n && forall i :: 0 <= i < n ==> s[i] == 0
  {
    seq(n, _ => 0)
  }

  const NO_HEADER := FrameHeader(0, 0, 0, 0, 0, 0, 0, 0)

  /** A slot: a full-size payload of which the first byteLen bytes are audio. */
  type AudioFrame = f: RawFrame | |f.payload| == PAYLOAD_BYTES && f.hdr.byteLen <= PAYLOAD_BYTES
    witness RawFrame(NO_HEADER, Zeros(PAYLOAD_BYTES))

  function AudioOf(f: AudioFrame): seq<byte> {
    f.payload[..f.hdr.byteLen]
  }

  datatype CloseReason = Hangover | MaxLength | StreamEnd

  datatype ChunkEvent = ChunkEvent(
    sessionId: uint32,
    chunkId: uint64,
    firstSeq: uint64,
    lastSeq: uint64,
    tFirstFrameNs: uint64,
    tSpeechStartNs: uint64,
    tEndpointNs: uint64,
    frameCount: uint32,
    byteCount: uint32,
    droppedFrames: uint32,
    reason: CloseReason,
    format: uint16)

  function Inc32(a: uint32): (r: uint32) {
    if a + 1 == TWO_32 then 0 else a + 1
  }
}
