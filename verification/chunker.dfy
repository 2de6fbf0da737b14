// Chunk assembly: the machine that turns the gate's state into closed chunks,
// first as a function on values, then as the objects the hot path mutates.

module Chunker {
  import opened Words
  import opened Audio
  import opened Gate
  import opened Windows

  datatype ChunkerConfig = ChunkerConfig(
    gate: GateConfig,
    preRollFrames: uint32,
    maxChunkMs: real,
    maxChunkBytes: nat,
    energyOf: AudioFrame -> AudioEnergy)

  datatype AssemblerState = AssemblerState(
    gate: GateState,
    preRoll: seq<AudioFrame>,
    buffer: seq<byte>,
    lastSeqSeen: Option<uint64>,
    nextChunkId: uint64,
    firstSeq: uint64,
    lastSeq: uint64,
    tSpeechStartNs: uint64,
    tFirstFrameNs: uint64,
    frameCount: uint32,
    gapFrames: uint32,
    format: uint16,
    active: bool,
    haveFirst: bool)

  const FRESH := AssemblerState(IDLE, [], [], None, 0, 0, 0, 0, 0, 0, 0, 0, false, false)

  /** An event together with the audio that stood in the buffer when the chunk closed. */
  datatype Closed = Closed(event: ChunkEvent, audio: seq<byte>)

  function Millis(ns: uint64): real { ns as real / 1000000.0 }

  /** Frames lost between two sequence numbers, as the 64-bit code counts them. */
  function GapAfter(last: uint64, seqNo: uint64): uint64 {
    if seqNo > Inc64(last) then Sub64(Sub64(seqNo, last), 1) else 0
  }

  function Add32(a: uint32, b: nat): uint32 { (a + b) % TWO_32 }

  function NoteSeq(a: AssemblerState, seqNo: uint64): AssemblerState {
    var gap := if a.lastSeqSeen.Some? then GapAfter(a.lastSeqSeen.value, seqNo) else 0;
    a.(gapFrames := Add32(a.gapFrames, gap), lastSeqSeen := Some(seqNo))
  }

  function OpenChunk(a: AssemblerState, nowNs: uint64): AssemblerState {
    a.(active := true, buffer := [], frameCount := 0, gapFrames := 0, firstSeq := 0, lastSeq := 0,
       haveFirst := false, tSpeechStartNs := nowNs, tFirstFrameNs := nowNs)
  }

  function Append(cfg: ChunkerConfig, a: AssemblerState, f: AudioFrame): AssemblerState {
    a.(buffer := if |a.buffer| + f.hdr.byteLen <= cfg.maxChunkBytes then a.buffer + AudioOf(f) else a.buffer,
       firstSeq := if a.haveFirst then a.firstSeq else f.hdr.seqNo,
       tFirstFrameNs := if a.haveFirst then a.tFirstFrameNs else f.hdr.tProduceNs,
       format := if a.haveFirst then a.format else f.hdr.format,
       haveFirst := true,
       lastSeq := f.hdr.seqNo,
       frameCount := Inc32(a.frameCount))
  }

  function AppendAll(cfg: ChunkerConfig, a: AssemblerState, fs: seq<AudioFrame>): (r: AssemblerState)
    ensures r.active == a.active && r.gate == a.gate && r.preRoll == a.preRoll
  {
    if fs == [] then a
    else Append(cfg, AppendAll(cfg, a, fs[..|fs| - 1]), fs[|fs| - 1])
  }

  function CloseEvent(a: AssemblerState, reason: CloseReason, nowNs: uint64): ChunkEvent {
    ChunkEvent(0, a.nextChunkId, a.firstSeq, a.lastSeq, a.tFirstFrameNs, a.tSpeechStartNs, nowNs,
               a.frameCount, |a.buffer| % TWO_32, a.gapFrames, reason, a.format)
  }

  function CloseChunk(a: AssemblerState): AssemblerState {
    a.(active := false, nextChunkId := Inc64(a.nextChunkId))
  }

  /** The last n elements of s, or all of them. */
  function LastOf<T>(s: seq<T>, n: nat): (r: seq<T>)
    ensures |r| == if |s| <= n then |s| else n
  {
    if |s| <= n then s else s[|s| - n..]
  }

  function Gated(cfg: ChunkerConfig, a: AssemblerState, f: AudioFrame, nowNs: uint64): (GateState, bool) {
    Step(Normalised(cfg.gate), a.gate, Loud(Normalised(cfg.gate), cfg.energyOf(f)), Millis(nowNs))
  }

  /** Where the frame goes: into the open chunk, opening one on onset, or into the pre-roll. */
  function PlaceGated(cfg: ChunkerConfig, a: AssemblerState, gated: (GateState, bool), f: AudioFrame, nowNs: uint64)
    : AssemblerState
  {
    var (g, onset) := gated;
    var b := a.(gate := g);
    if onset && !a.active then
      Append(cfg, AppendAll(cfg, OpenChunk(b, nowNs), b.preRoll).(preRoll := []), f)
    else if a.active then
      Append(cfg, b, f)
    else
      b.(preRoll := LastOf(b.preRoll + [f], cfg.preRollFrames))
  }

  function Placed(cfg: ChunkerConfig, a: AssemblerState, f: AudioFrame, nowNs: uint64): AssemblerState {
    var b := NoteSeq(a, f.hdr.seqNo);
    PlaceGated(cfg, b, Gated(cfg, b, f, nowNs), f, nowNs)
  }

  function FrameStep(cfg: ChunkerConfig, a: AssemblerState, f: AudioFrame, nowNs: uint64)
    : (AssemblerState, Option<Closed>)
  {
    var b := Placed(cfg, a, f, nowNs);
    if !b.active then
      (b, None)
    else if !b.gate.speaking then
      (CloseChunk(b), Some(Closed(CloseEvent(b, Hangover, nowNs), b.buffer)))
    else if Millis(Sub64(nowNs, b.tSpeechStartNs)) >= cfg.maxChunkMs then
      (OpenChunk(CloseChunk(b), nowNs), Some(Closed(CloseEvent(b, MaxLength, nowNs), b.buffer)))
    else
      (b, None)
  }

  function FlushStep(a: AssemblerState, nowNs: uint64): (AssemblerState, Option<Closed>) {
    if !a.active then (a, None)
    else (CloseChunk(a), Some(Closed(CloseEvent(a, StreamEnd, nowNs), a.buffer)))
  }

  function EventOf(c: Option<Closed>): Option<ChunkEvent> {
    if c.Some? then Some(c.value.event) else None
  }

  // ------------------------------------------------------ the pre-roll ring

  /** The last elements pushed, as many as there are slots. */
  function Latest<T>(slots: seq<T>, head: nat): (w: seq<T>)
    ensures |w| == Min(head, |slots|)
  {
    Window(slots, head - Min(head, |slots|), head)
  }

  lemma OverwriteOldest<T>(slots: seq<T>, head: nat, x: T)
    requires 0 < |slots|
    ensures Latest(slots[Residue(head, |slots|) := x], head + 1) == LastOf(Latest(slots, head) + [x], |slots|)
  {
    hide Residue;
    if head < |slots| {
      WindowWrite(slots, 0, head, x);
    } else {
      var start := head - |slots|;
      WindowDrop(slots, start, head);
      WindowWrite(slots, start + 1, head, x);
      assert (Window(slots, start, head) + [x])[1..] == Window(slots, start, head)[1..] + [x];
    }
  }

  /** The frames heard while no chunk is open: as many of the latest as there are slots. */
  class PreRoll {
    const cap: nat
    const frames: array<AudioFrame>
    var head: nat

    ghost predicate Valid() {
      frames.Length == cap
    }

    function Size(): (n: nat)
      reads this
      ensures n <= cap
    {
      if head < cap then head else cap
    }

    function At(i: nat): (f: AudioFrame)
      requires Valid() && i < Size()
      reads this, frames
      ensures f == Contents()[i]
    {
      var start := if head < cap then 0 else head - cap;
      frames[Residue(start + i, cap)]
    }

    ghost function Contents(): (s: seq<AudioFrame>)
      requires Valid()
      reads this, frames
      ensures |s| == Size()
    {
      Latest(frames[..], head)
    }

    constructor (capacity: nat, blank: AudioFrame)
      ensures Valid() && cap == capacity && Contents() == []
      ensures fresh(frames)
    {
      cap := capacity;
      frames := new AudioFrame[capacity](_ => blank);
      head := 0;
    }

    method Push(f: AudioFrame)
      requires Valid()
      modifies this, frames
      ensures Valid() && Contents() == LastOf(old(Contents()) + [f], cap)
    {
      if cap == 0 { return; }
      ghost var was, at := frames[..], head;
      frames[Residue(head, cap)] := f;
      head := head + 1;
      assert frames[..] == was[Residue(at, cap) := f];
      OverwriteOldest(was, at, f);
    }

    method Clear()
      requires Valid()
      modifies this
      ensures Valid() && Contents() == []
    {
      head := 0;
    }
  }

  // ------------------------------------------------------ the assembler object

  class ChunkAssembler {
    const cfg: ChunkerConfig
    const gate: SpeechThresholdGate
    const preRoll: PreRoll
    var buffer: seq<byte>
    var lastSeqSeen: Option<uint64>
    var nextChunkId: uint64
    var firstSeq: uint64
    var lastSeq: uint64
    var tSpeechStartNs: uint64
    var tFirstFrameNs: uint64
    var frameCount: uint32
    var gapFrames: uint32
    var format: uint16
    var active: bool
    var haveFirst: bool

    ghost function Repr(): set<object> {
      {this, gate, preRoll, preRoll.frames}
    }

    ghost predicate Valid() {
      gate.cfg == Normalised(cfg.gate) && preRoll.Valid() && preRoll.cap == cfg.preRollFrames
    }

    ghost function State(): AssemblerState
      requires Valid()
      reads this, gate, preRoll, preRoll.frames
    {
      AssemblerState(gate.State(), preRoll.Contents(), buffer, lastSeqSeen, nextChunkId, firstSeq, lastSeq,
                     tSpeechStartNs, tFirstFrameNs, frameCount, gapFrames, format, active, haveFirst)
    }

    constructor (config: ChunkerConfig)
      ensures cfg == config && Valid() && State() == FRESH
      ensures fresh(Repr())
    {
      var g := new SpeechThresholdGate(config.gate);
      var p := new PreRoll(config.preRollFrames, RawFrame(NO_HEADER, Zeros(PAYLOAD_BYTES)));
      cfg, gate, preRoll := config, g, p;
      buffer, lastSeqSeen, nextChunkId := [], None, 0;
      firstSeq, lastSeq, tSpeechStartNs, tFirstFrameNs := 0, 0, 0, 0;
      frameCount, gapFrames, format, active, haveFirst := 0, 0, 0, false, false;
    }

    method OnFrame(frame: AudioFrame, nowNs: uint64) returns (event: Option<ChunkEvent>)
      requires Valid()
      modifies Repr()
      ensures Valid()
      ensures var (s, c) := FrameStep(cfg, old(State()), frame, nowNs);
        && State() == s
        && event == EventOf(c)
        && (c.Some? && event.value.reason != MaxLength ==> buffer == c.value.audio)
    {
      DoNoteSeq(frame.hdr.seqNo);
      DoPlace(frame, nowNs);
      if !active { return None; }
      if !gate.speaking {
        var e := DoCloseChunk(Hangover, nowNs);
        return Some(e);
      }
      if Millis(Sub64(nowNs, tSpeechStartNs)) >= cfg.maxChunkMs {
        var e := DoCloseChunk(MaxLength, nowNs);
        DoOpenChunk(nowNs);
        return Some(e);
      }
      return None;
    }

    method Flush(nowNs: uint64) returns (event: Option<ChunkEvent>)
      requires Valid()
      modifies Repr()
      ensures Valid()
      ensures var (s, c) := FlushStep(old(State()), nowNs);
        State() == s && event == EventOf(c) && (c.Some? ==> buffer == c.value.audio)
    {
      if !active { return None; }
      var e := DoCloseChunk(StreamEnd, nowNs);
      return Some(e);
    }

    method DoNoteSeq(seqNo: uint64)
      requires Valid()
      modifies this
      ensures State() == NoteSeq(old(State()), seqNo)
    {
      if lastSeqSeen.Some? && seqNo > Inc64(lastSeqSeen.value) {
        gapFrames := Add32(gapFrames, Sub64(Sub64(seqNo, lastSeqSeen.value), 1));
      }
      lastSeqSeen := Some(seqNo);
    }

    /** The middle of on_frame: gate the frame and put it where it belongs. */
    method DoPlace(frame: AudioFrame, nowNs: uint64)
      requires Valid()
      modifies Repr()
      ensures State() == PlaceGated(cfg, old(State()), Gated(cfg, old(State()), frame, nowNs), frame, nowNs)
    {
      ghost var a := State();
      var onset := gate.Accept(cfg.energyOf(frame), Millis(nowNs));
      ghost var b := State();
      assert b == a.(gate := gate.State()) && (gate.State(), onset) == Gated(cfg, a, frame, nowNs);
      if onset && !active {
        DoOpenChunk(nowNs);
        FlushPreRoll();
      }
      ghost var c := State();
      assert c == if onset && !b.active then AppendAll(cfg, OpenChunk(b, nowNs), b.preRoll).(preRoll := []) else b;
      if active {
        DoAppend(frame);
      } else {
        preRoll.Push(frame);
        assert State() == c.(preRoll := LastOf(c.preRoll + [frame], cfg.preRollFrames));
      }
    }

    method DoOpenChunk(nowNs: uint64)
      requires Valid()
      modifies this
      ensures State() == OpenChunk(old(State()), nowNs)
    {
      ghost var a := State();
      active := true;
      buffer := [];
      frameCount, gapFrames, firstSeq, lastSeq := 0, 0, 0, 0;
      haveFirst := false;
      tSpeechStartNs, tFirstFrameNs := nowNs, nowNs;
      assert gate.State() == a.gate && preRoll.Contents() == a.preRoll;
    }

    method FlushPreRoll()
      requires Valid()
      modifies this, preRoll
      ensures State() == AppendAll(cfg, old(State()), old(preRoll.Contents())).(preRoll := [])
    {
      ghost var before, kept := State(), preRoll.Contents();
      var i := 0;
      while i < preRoll.Size()
        invariant i <= |kept| && preRoll.Contents() == kept
        invariant State() == AppendAll(cfg, before, kept[..i])
      {
        assert preRoll.At(i) == kept[i];
        assert kept[..i + 1][..i] == kept[..i];
        DoAppend(preRoll.At(i));
        i := i + 1;
      }
      assert kept[..i] == kept;
      preRoll.Clear();
    }

    method DoAppend(frame: AudioFrame)
      requires Valid()
      modifies this
      ensures State() == Append(cfg, old(State()), frame)
    {
      hide PreRoll.Contents, PreRoll.Valid;
      ghost var a := State();
      var len := frame.hdr.byteLen;
      if |buffer| + len <= cfg.maxChunkBytes {
        buffer := buffer + frame.payload[..len];
      }
      if !haveFirst {
        firstSeq := frame.hdr.seqNo;
        tFirstFrameNs := frame.hdr.tProduceNs;
        format := frame.hdr.format;
        haveFirst := true;
      }
      lastSeq := frame.hdr.seqNo;
      frameCount := Inc32(frameCount);
      assert gate.State() == a.gate && preRoll.Contents() == a.preRoll;
    }

    method DoCloseChunk(reason: CloseReason, nowNs: uint64) returns (event: ChunkEvent)
      requires Valid()
      modifies this
      ensures event == CloseEvent(old(State()), reason, nowNs)
      ensures State() == CloseChunk(old(State()))
    {
      ghost var a := State();
      event := ChunkEvent(0, nextChunkId, firstSeq, lastSeq, tFirstFrameNs, tSpeechStartNs, nowNs,
                          frameCount, |buffer| % TWO_32, gapFrames, reason, format);
      nextChunkId := Inc64(nextChunkId);
      active := false;
      assert gate.State() == a.gate && preRoll.Contents() == a.preRoll;
    }
  }
}
