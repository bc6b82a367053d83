/** Finite sums of reals and the absolute value. */
module Reals {
  import opened Algebra

  type Vec = nat -> real

  function Abs(x: real): (a: real)
    ensures a >= 0.0 && (a == x || a == -x)
  {
    if x < 0.0 then -x else x
  }

  function Times(a: real, b: real): real { a * b }

  lemma TimesLaws(a: real, b: real, c: real)
    ensures Times(a, b) == Times(b, a) && Times(a, a) >= 0.0
    ensures Times(a, Times(b, c)) == Times(Times(a, b), c)
  {
    assert a * b * c == a * (b * c);
  }

  const PLUS: Monoid<real> := Monoid(0.0, (x: real, y: real) => x + y)

  lemma PlusIsMonoid()
    ensures IsCommutativeMonoid(PLUS)
  {
  }

  function Sigma(f: Vec, n: nat): real { Sum(PLUS, f, n) }

  lemma {:induction false} SigmaScale(c: real, f: Vec, g: Vec, n: nat)
    requires forall i: nat :: i < n ==> g(i) == c * f(i)
    ensures Sigma(g, n) == c * Sigma(f, n)
  {
    if n > 0 {
      SigmaScale(c, f, g, n - 1);
    }
  }

  lemma {:induction false} SigmaAdd(f: Vec, g: Vec, h: Vec, n: nat)
    requires forall i: nat :: i < n ==> h(i) == f(i) + g(i)
    ensures Sigma(h, n) == Sigma(f, n) + Sigma(g, n)
  {
    if n > 0 {
      SigmaAdd(f, g, h, n - 1);
    }
  }

  lemma {:induction false} SigmaOrder(f: Vec, g: Vec, n: nat)
    requires forall i: nat :: i < n ==> f(i) <= g(i)
    ensures Sigma(f, n) <= Sigma(g, n)
  {
    if n > 0 {
      SigmaOrder(f, g, n - 1);
    }
  }

  lemma {:induction false} SigmaConst(c: real, f: Vec, n: nat)
    requires forall i: nat :: i < n ==> f(i) == c
    ensures Sigma(f, n) == n as real * c
  {
    if n > 0 {
      SigmaConst(c, f, n - 1);
      assert n as real == (n - 1) as real + 1.0;
    }
  }

  lemma SigmaFew(f: Vec)
    ensures Sigma(f, 0) == 0.0 && Sigma(f, 1) == f(0) && Sigma(f, 2) == f(0) + f(1)
  {
    assert Sigma(f, 1) == Sigma(f, 0) + f(0);
    assert Sigma(f, 2) == Sigma(f, 1) + f(1);
  }

  lemma SigmaSame(f: Vec, g: Vec, n: nat)
    requires forall i: nat :: i < n ==> f(i) == g(i)
    ensures Sigma(f, n) == Sigma(g, n)
  {
    SumCongruent(PLUS, f, g, n);
  }
}
