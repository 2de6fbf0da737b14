// The single-producer single-consumer ring, one call at a time: 64-bit indices
// that wrap, and each side's cached copy of the other's index.

module SpscRings {
  import opened Words
  import opened Windows

  datatype PushResult = Ok | Full

  /** The 64-bit word an unbounded counter shows. */
  function Low64(n: nat): uint64 { n % TWO_64 }

  lemma Low64Difference(a: nat, b: nat)
    requires b <= a < b + TWO_64
    ensures Sub64(Low64(a), Low64(b)) == a - b
    ensures Low64(a) == Low64(b) <==> a == b
  {
  }

  /** `index & kMask` finds the slot of the unbounded counter, wrapped or not. */
  lemma MaskFindsSlot(n: nat, capacity: nat)
    requires IsPow2(capacity) && capacity <= TWO_64
    ensures Low64(n) % capacity == Residue(n, capacity)
  {
    Pow2Of64();
    Pow2Divides(capacity, 64);
    var k: nat :| 0 < k && capacity * k == TWO_64;
    ModOfMod(n, capacity, k);
  }

  class SpscRing<T> {
    const slots: array<T>
    // TryPush's own fields.
    var head: uint64
    var tailCache: uint64
    // TryPop's own fields.
    var tail: uint64
    var headCache: uint64

    ghost var pushed: nat
    ghost var popped: nat
    ghost var popsSeen: nat
    ghost var pushesSeen: nat

    ghost predicate Valid()
      reads this
    {
      && 2 <= slots.Length <= TWO_64 / 2 && IsPow2(slots.Length)
      && popsSeen <= popped <= pushesSeen <= pushed <= popsSeen + slots.Length
      && head == Low64(pushed) && tail == Low64(popped)
      && tailCache == Low64(popsSeen) && headCache == Low64(pushesSeen)
    }

    ghost function Contents(): (s: seq<T>)
      requires Valid()
      reads this, slots
      ensures |s| == pushed - popped <= slots.Length
    {
      Window(slots[..], popped, pushed)
    }

    constructor (capacity: nat, blank: T)
      requires 2 <= capacity <= TWO_64 / 2 && IsPow2(capacity)
      ensures Valid() && Contents() == [] && slots.Length == capacity && fresh(slots)
    {
      slots := new T[capacity](_ => blank);
      head, tailCache, tail, headCache := 0, 0, 0, 0;
      pushed, popped, popsSeen, pushesSeen := 0, 0, 0, 0;
    }

    method TryPush(value: T) returns (r: PushResult)
      requires Valid()
      modifies this, slots
      ensures Valid()
      ensures r == Full <==> old(|Contents()|) == slots.Length
      ensures Contents() == old(Contents()) + if r == Ok then [value] else []
      ensures popped == old(popped) && tail == old(tail) && headCache == old(headCache)
    {
      hide Residue, IsPow2, Low64;
      Low64Difference(pushed, popsSeen);
      if Sub64(head, tailCache) >= slots.Length {
        tailCache, popsSeen := tail, popped;
        Low64Difference(pushed, popped);
        if Sub64(head, tailCache) >= slots.Length { return Full; }
      }
      MaskFindsSlot(pushed, slots.Length);
      WindowWrite(slots[..], popped, pushed, value);
      ghost var was := slots[..];
      slots[head % slots.Length] := value;
      assert slots[..] == was[Residue(pushed, slots.Length) := value];
      head, pushed := Increment(head, pushed), pushed + 1;
      return Ok;
    }

    method TryPop() returns (out: Option<T>)
      requires Valid()
      modifies this
      ensures Valid()
      ensures out == None <==> old(Contents()) == []
      ensures out.Some? ==> old(Contents()) == [out.value] + Contents()
      ensures out.None? ==> Contents() == old(Contents())
      ensures pushed == old(pushed) && head == old(head) && tailCache == old(tailCache)
    {
      hide Residue, IsPow2, Low64;
      Low64Difference(pushesSeen, popped);
      if tail == headCache {
        headCache, pushesSeen := head, pushed;
        Low64Difference(pushed, popped);
        if tail == headCache { return None; }
      }
      MaskFindsSlot(popped, slots.Length);
      WindowDrop(slots[..], popped, pushed);
      out := Some(slots[tail % slots.Length]);
      tail, popped := Increment(tail, popped), popped + 1;
    }

    function Size(): (n: nat)
      requires Valid()
      reads this, slots
      ensures n == |Contents()|
    {
      Low64Difference(pushed, popped);
      Sub64(head, tail)
    }

    /** `index + 1`, in a word and unbounded. */
    static function Increment(word: uint64, ghost counter: nat): (r: uint64)
      requires word == Low64(counter)
      ensures r == Low64(counter + 1)
    {
      Inc64(word)
    }
  }
}
