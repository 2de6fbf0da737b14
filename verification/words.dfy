// Machine words, options and the powers of two every other module leans on.

module Words {

  const TWO_32: nat := 0x1_0000_0000
  const TWO_64: nat := 0x1_0000_0000_0000_0000

  datatype Option<+T> = None | Some(value: T)

  type uint32 = x: nat | x < TWO_32
  type uint64 = x: nat | x < TWO_64

  /** Unsigned 64-bit subtraction, as the hardware does it: modulo 2^64. */
  function Sub64(a: uint64, b: uint64): (r: uint64)
    ensures b <= a ==> r == a - b
    ensures a < b ==> r == TWO_64 + a - b
  {
    if b <= a then a - b else TWO_64 + a - b
  }

  function Add64(a: uint64, b: uint64): uint64 { (a + b) % TWO_64 }

  /** Unsigned 64-bit increment. */
  function Inc64(a: uint64): (r: uint64)
  {
    if a + 1 == TWO_64 then 0 else a + 1
  }

  function Min(a: int, b: int): int { if a <= b then a else b }

  function Max(a: int, b: int): int { if a <= b then b else a }

  // ------------------------------------------------------ powers of two

  function Pow2(n: nat): (r: nat)
    ensures 1 <= r
  {
    if n == 0 then 1 else 2 * Pow2(n - 1)
  }

  predicate IsPow2(n: nat) {
    n == 1 || (n > 0 && n % 2 == 0 && IsPow2(n / 2))
  }

  lemma {:induction false} Pow2Add(a: nat, b: nat)
    ensures Pow2(a + b) == Pow2(a) * Pow2(b)
  {
    if a > 0 {
      Pow2Add(a - 1, b);
    }
  }

  lemma {:induction false} Pow2Monotone(a: nat, b: nat)
    requires a <= b
    ensures Pow2(a) <= Pow2(b)
    decreases b
  {
    if a < b { Pow2Monotone(a, b - 1); }
  }

  lemma Pow2Of16()
    ensures Pow2(16) == 0x1_0000
  {
    assert Pow2(4) == 16;
    Pow2Add(4, 4);
    Pow2Add(8, 8);
  }

  lemma Pow2Of64()
    ensures Pow2(64) == TWO_64
    ensures Pow2(63) * 2 == TWO_64
  {
    Pow2Of16();
    Pow2Add(16, 16);
    Pow2Add(32, 32);
  }

  /** A power of two no larger than 2^n divides it. */
  lemma {:induction false} Pow2Divides(c: nat, n: nat)
    requires IsPow2(c) && c <= Pow2(n)
    ensures exists k: nat :: 0 < k && c * k == Pow2(n)
    decreases n
  {
    if c == 1 {
      assert c * Pow2(n) == Pow2(n);
    } else {
      Pow2Divides(c / 2, n - 1);
      var k: nat :| 0 < k && (c / 2) * k == Pow2(n - 1);
      assert c * k == 2 * ((c / 2) * k) by { assert c == 2 * (c / 2); }
    }
  }

  // ------------------------------------------------------ remainders

  lemma AtLeastOneLap(k: int, m: nat)
    requires 0 < k
    ensures k * m >= m
  {
  }

  /** Division is pinned down by any quotient-remainder pair. */
  lemma DivModUnique(x: int, m: nat, q: int, r: int)
    requires 0 <= r < m && x == q * m + r
    ensures x / m == q && x % m == r
  {
    var d := x / m - q;
    var r' := x - m * (x / m);
    assert 0 <= r' < m;
    assert d * m == r - r' by { assert d * m == (x / m) * m - q * m; }
    if d > 0 {
      AtLeastOneLap(d, m);
    } else if d < 0 {
      AtLeastOneLap(-d, m);
    }
  }

  /** Reducing modulo a multiple of c first does not change the remainder modulo c. */
  lemma ModOfMod(x: nat, c: nat, k: nat)
    requires 0 < c && 0 < k
    ensures 0 < c * k && (x % (c * k)) % c == x % c
  {
    assert 0 < c * k;
    var r := x % (c * k);
    var q := x / (c * k);
    assert x == q * (c * k) + r;
    assert r == (r / c) * c + r % c;
    assert q * (c * k) == (q * k) * c;
    assert x == (q * k + r / c) * c + r % c by {
      assert (q * k) * c + (r / c) * c == (q * k + r / c) * c;
    }
    DivModUnique(x, c, q * k + r / c, r % c);
  }

  /** Two positions in the same residue class and less than one lap apart are the same. */
  lemma SameResidue(a: int, b: int, m: nat)
    requires 0 < m
    ensures a % m == b % m && a < b ==> a + m <= b
    ensures a % m == b % m && a - b < m && b - a < m ==> a == b
  {
    if a % m == b % m {
      var d := b / m - a / m;
      assert b - a == d * m by { assert d * m == (b / m) * m - (a / m) * m; }
      if d > 0 {
        AtLeastOneLap(d, m);
      } else if d < 0 {
        AtLeastOneLap(-d, m);
        assert (-d) * m == -(d * m);
      }
    }
  }
}
