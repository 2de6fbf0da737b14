// Producer, ring and hot loop together: the frames the loop pops are those the
// ring took, in order, and the gaps it counts are the pushes the ring refused.

module RingLoss {
  import opened Words
  import opened Audio
  import HotLoop
  import opened Demux
  import opened Loss
  import opened RingProtocol

  /** The attempts are what the ring's history says of its pushes. */
  ghost predicate Told(attempts: seq<Attempt>, history: seq<Outcome<AudioFrame>>)
    decreases |history|
  {
    if history == [] then attempts == []
    else
      var o, before := history[|history| - 1], history[..|history| - 1];
      match o
      case Pushed(v) =>
        attempts != [] && attempts[|attempts| - 1] == Attempt(v, true) && Told(attempts[..|attempts| - 1], before)
      case RefusedFull =>
        attempts != [] && !attempts[|attempts| - 1].accepted && Told(attempts[..|attempts| - 1], before)
      case _ => Told(attempts, before)
  }

  lemma {:induction false} ToldPushes(attempts: seq<Attempt>, history: seq<Outcome<AudioFrame>>)
    requires Told(attempts, history)
    ensures Accepted(attempts) == Pushes(history)
    decreases |history|
  {
    if history != [] {
      var o, before := history[|history| - 1], history[..|history| - 1];
      if o.Pushed? || o.RefusedFull? {
        ToldPushes(attempts[..|attempts| - 1], before);
      } else {
        ToldPushes(attempts, before);
      }
    }
  }

  /** Frames the ring refused. */
  function Dropped(attempts: seq<Attempt>): nat {
    if attempts == [] then 0
    else Dropped(attempts[..|attempts| - 1]) + if attempts[|attempts| - 1].accepted then 0 else 1
  }

  lemma {:induction false} AcceptedOrDropped(attempts: seq<Attempt>)
    ensures |Accepted(attempts)| + Dropped(attempts) == |attempts|
  {
    if attempts != [] { AcceptedOrDropped(attempts[..|attempts| - 1]); }
  }

  /** The attempts up to the k-th the ring took. */
  lemma {:induction false} UpToAccepted(attempts: seq<Attempt>, k: nat) returns (j: nat)
    requires k <= |Accepted(attempts)|
    ensures j <= |attempts| && Accepted(attempts[..j]) == Accepted(attempts)[..k]
  {
    if k == |Accepted(attempts)| {
      j := |attempts|;
      assert attempts[..j] == attempts;
    } else {
      var n := |attempts| - 1;
      j := UpToAccepted(attempts[..n], k);
      assert attempts[..n][..j] == attempts[..j];
    }
  }

  lemma {:induction false} FatesStay(attempts: seq<Attempt>, j: nat, c: uint32, base: nat)
    requires j <= |attempts| && Numbered(attempts, c, base)
    ensures Numbered(attempts[..j], c, base)
  {
    hide Fates;
    assert forall i :: 0 <= i < j ==> attempts[..j][..i] == attempts[..i];
  }

  /** Under every interleaving of the two threads and every stale load, from a fresh table with nobody expired: the loop
      has popped, in order, the frames of the first j attempts the ring took; the rest it took are still in the ring;
      seq_gaps is the number of frames refused strictly between the first and the last popped of a call that was
      admitted; and every attempt is accounted for as fed, refused by the table, waiting in the ring, or dropped. */
  lemma RingToMetric(cfg: HotLoop.LoopConfig, max: nat, firstSweepNs: uint64, turns: seq<HotLoop.Turn>,
                     attempts: seq<Attempt>, base: nat -> nat,
                     cap: nat, blank: AudioFrame, steps: seq<Step<AudioFrame>>, t: State<AudioFrame>)
    returns (j: nat)
    requires 0 < cap && Runs(cap, Initial(blank), steps, t, false)
    requires Told(attempts, t.history) && Loss.Popped(cfg, turns) == Pops(t.history)
    requires |attempts| < TWO_64 && AllNumbered(attempts, base)
    requires NoExpiry(cfg, Demux.Begin(max, firstSweepNs), turns)
    ensures t.tail <= t.head <= |t.written| && j <= |attempts|
    ensures Accepted(attempts) == Accepted(attempts[..j]) + t.written[t.tail..t.head]
    ensures var q := HotLoop.Run(cfg, Demux.Begin(max, firstSweepNs), turns);
      && q.seqGaps == SumShed(q.table.dir, attempts[..j], TWO_32)
      && q.frames + q.refused + (t.head - t.tail) + Dropped(attempts) == |attempts|
  {
    hide Runs, Told, Pops, Pushes, Accepted, Numbered, HotLoop.Run, NoExpiry, SumShed, Loss.Popped, Replay, Readable;
    NoRunReorders(cap, blank, steps, t);
    ToldPushes(attempts, t.history);
    AcceptedOrDropped(attempts);
    j := UpToAccepted(attempts, |Pops(t.history)|);
    forall c: uint32 ensures Numbered(attempts[..j], c, base(c)) { FatesStay(attempts, j, c, base(c)); }
    GapsCountShedFrames(cfg, max, firstSweepNs, turns, attempts[..j], base);
  }
}
