// Products and quotients behind names, so that proofs about indices can use the
// few laws they need and keep the solver away from general multiplication.

module Products {
  import opened Words

  function Times(a: nat, b: nat): nat { a * b }

  function Div(a: nat, m: nat): nat
    requires 0 < m
  {
    a / m
  }

  function Mod(a: nat, m: nat): (r: nat)
    requires 0 < m
    ensures r < m
  {
    a % m
  }

  lemma TimesNext(a: nat, p: nat)
    ensures Times(a + 1, p) == Times(a, p) + p
    ensures Times(0, p) == 0 && Times(1, p) == p
  {
  }

  lemma TimesMonotone(a: nat, b: nat, p: nat)
    ensures a <= b ==> Times(a, p) <= Times(b, p)
    ensures a < b ==> Times(a, p) + p <= Times(b, p)
  {
    if a <= b { assert (b - a) * p >= 0; }
    if a < b { AtLeastOneLap(b - a, p); assert (b - a) * p == b * p - a * p; }
  }

  lemma TimesCommutes(a: nat, b: nat)
    ensures Times(a, b) == Times(b, a)
  {
  }

  lemma TimesDoubles(a: nat, p: nat)
    ensures Times(a, 2 * p) == 2 * Times(a, p) == Times(2 * a, p)
  {
  }

  lemma Pow2Times(a: nat, b: nat)
    ensures Pow2(a + b) == Times(Pow2(a), Pow2(b))
  {
    Pow2Add(a, b);
  }

  lemma DivMod(a: nat, m: nat)
    requires 0 < m
    ensures a == Times(Div(a, m), m) + Mod(a, m)
  {
    TimesCommutes(Div(a, m), m);
  }

  lemma DivShrinks(a: nat, m: nat)
    requires 0 < m
    ensures Div(a, m) <= a
  {
    hide Times, Div, Mod;
    var q := Div(a, m);
    DivMod(a, m);
    TimesCommutes(q, m);
    TimesMonotone(1, m, q);
    TimesNext(1, q);
  }

  lemma DivModIs(a: nat, m: nat, q: nat, r: nat)
    requires r < m && a == Times(q, m) + r
    ensures Div(a, m) == q && Mod(a, m) == r
  {
    DivModUnique(a, m, q, r);
  }
}
