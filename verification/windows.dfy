// A circular array seen through two unbounded counters: positions lo..hi live in
// the slots (lo % n)..(hi % n), and the counters never run more than n apart.

module Windows {
  import opened Words

  /** The slot of position p. */
  function Residue(p: nat, n: nat): (r: nat)
    requires 0 < n
    ensures r < n
  {
    p % n
  }

  lemma ResiduesDiffer(a: nat, b: nat, n: nat)
    requires a < b < a + n
    ensures Residue(a, n) != Residue(b, n)
  {
    SameResidue(a, b, n);
  }

  /** The elements at positions lo..hi. */
  function Window<T>(slots: seq<T>, lo: nat, hi: nat): (w: seq<T>)
    requires lo <= hi <= lo + |slots|
    ensures |w| == hi - lo
  {
    seq(hi - lo, i requires 0 <= i < hi - lo => slots[Residue(lo + i, |slots|)])
  }

  /** Writing the slot of position hi appends to the window, as long as hi laps nothing in it. */
  lemma WindowWrite<T>(slots: seq<T>, lo: nat, hi: nat, x: T)
    requires lo <= hi < lo + |slots|
    ensures Window(slots[Residue(hi, |slots|) := x], lo, hi + 1) == Window(slots, lo, hi) + [x]
  {
    hide Residue;
    var n := |slots|;
    var w, v := Window(slots[Residue(hi, n) := x], lo, hi + 1), Window(slots, lo, hi) + [x];
    forall i | 0 <= i < |w| ensures w[i] == v[i] {
      if i < hi - lo { ResiduesDiffer(lo + i, hi, n); }
    }
    assert w == v;
  }

  /** Forgetting the oldest position drops the head of the window. */
  lemma WindowDrop<T>(slots: seq<T>, lo: nat, hi: nat)
    requires lo < hi <= lo + |slots|
    ensures Window(slots, lo, hi)[0] == slots[Residue(lo, |slots|)]
    ensures Window(slots, lo, hi)[1..] == Window(slots, lo + 1, hi)
  {
    hide Residue;
    forall i | 0 <= i < hi - lo - 1
      ensures Window(slots, lo, hi)[1..][i] == Window(slots, lo + 1, hi)[i]
    {
      assert lo + (i + 1) == (lo + 1) + i;
    }
  }
}
