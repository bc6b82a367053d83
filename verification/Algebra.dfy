/**
 Finite sums over an abstract commutative monoid, and commutative rings.

 Every law is quantified over a predicate of its own (`AddCommAt`, ...), so a law is
 only ever used where a proof names it.
 */
module Algebra {

  // ---------------------------------------------------------------- commutative monoids

  datatype Monoid<!T(!new)> = Monoid(unit: T, op: (T, T) -> T)

  ghost predicate OpAssocAt<T(!new)>(m: Monoid<T>, a: T, b: T, c: T) {
    m.op(m.op(a, b), c) == m.op(a, m.op(b, c))
  }

  ghost predicate OpCommAt<T(!new)>(m: Monoid<T>, a: T, b: T) {
    m.op(a, b) == m.op(b, a)
  }

  ghost predicate OpUnitAt<T(!new)>(m: Monoid<T>, a: T) {
    m.op(a, m.unit) == a
  }

  ghost predicate IsCommutativeMonoid<T(!new)>(m: Monoid<T>) {
    && (forall a, b, c :: OpAssocAt(m, a, b, c))
    && (forall a, b :: OpCommAt(m, a, b))
    && (forall a :: OpUnitAt(m, a))
  }

  lemma OpAssoc<T(!new)>(m: Monoid<T>, a: T, b: T, c: T)
    requires IsCommutativeMonoid(m)
    ensures m.op(m.op(a, b), c) == m.op(a, m.op(b, c))
  {
    assert OpAssocAt(m, a, b, c);
  }

  lemma OpComm<T(!new)>(m: Monoid<T>, a: T, b: T)
    requires IsCommutativeMonoid(m)
    ensures m.op(a, b) == m.op(b, a)
  {
    assert OpCommAt(m, a, b);
  }

  lemma OpUnit<T(!new)>(m: Monoid<T>, a: T)
    requires IsCommutativeMonoid(m)
    ensures m.op(a, m.unit) == a && m.op(m.unit, a) == a
  {
    assert OpUnitAt(m, a);
    OpComm(m, a, m.unit);
  }

  /** (a b)(c d) = (a c)(b d) */
  lemma OpExchange<T(!new)>(m: Monoid<T>, a: T, b: T, c: T, d: T)
    requires IsCommutativeMonoid(m)
    ensures m.op(m.op(a, b), m.op(c, d)) == m.op(m.op(a, c), m.op(b, d))
  {
    OpAssoc(m, a, b, m.op(c, d));
    OpAssoc(m, b, c, d);
    OpComm(m, b, c);
    OpAssoc(m, c, b, d);
    OpAssoc(m, a, c, m.op(b, d));
  }

  // ---------------------------------------------------------------- sums

  /** f(0) + ... + f(n - 1), from the left. */
  function Sum<T(!new)>(m: Monoid<T>, f: nat -> T, n: nat): T {
    if n == 0 then m.unit else m.op(Sum(m, f, n - 1), f(n - 1))
  }

  lemma {:induction false} SumCongruent<T(!new)>(m: Monoid<T>, f: nat -> T, g: nat -> T, n: nat)
    requires forall i: nat :: i < n ==> f(i) == g(i)
    ensures Sum(m, f, n) == Sum(m, g, n)
  {
    if n > 0 {
      SumCongruent(m, f, g, n - 1);
    }
  }

  lemma {:induction false} SumOfUnits<T(!new)>(m: Monoid<T>, f: nat -> T, n: nat)
    requires IsCommutativeMonoid(m)
    requires forall i: nat :: i < n ==> f(i) == m.unit
    ensures Sum(m, f, n) == m.unit
  {
    if n > 0 {
      SumOfUnits(m, f, n - 1);
      OpUnit(m, m.unit);
    }
  }

  lemma SumOne<T(!new)>(m: Monoid<T>, f: nat -> T)
    requires IsCommutativeMonoid(m)
    ensures Sum(m, f, 1) == f(0)
  {
    assert Sum(m, f, 1) == m.op(Sum(m, f, 0), f(0));
    OpUnit(m, f(0));
  }

  /** A sum with a single term different from the unit. */
  lemma {:induction false} SumSingle<T(!new)>(m: Monoid<T>, f: nat -> T, n: nat, p: nat)
    requires IsCommutativeMonoid(m)
    requires p < n
    requires forall i: nat :: i < n && i != p ==> f(i) == m.unit
    ensures Sum(m, f, n) == f(p)
  {
    if p == n - 1 {
      SumOfUnits(m, f, n - 1);
      OpUnit(m, f(p));
    } else {
      SumSingle(m, f, n - 1, p);
      OpUnit(m, f(p));
    }
  }

  lemma {:induction false} SumAppend<T(!new)>(m: Monoid<T>, f: nat -> T, a: nat, b: nat)
    requires IsCommutativeMonoid(m)
    ensures Sum(m, f, a + b) == m.op(Sum(m, f, a), Sum(m, (i: nat) => f(a + i), b))
  {
    if b == 0 {
      OpUnit(m, Sum(m, f, a));
    } else {
      SumAppend(m, f, a, b - 1);
      OpAssoc(m, Sum(m, f, a), Sum(m, (i: nat) => f(a + i), b - 1), f(a + (b - 1)));
    }
  }

  lemma {:induction false} SumPointwise<T(!new)>(m: Monoid<T>, f: nat -> T, g: nat -> T, n: nat)
    requires IsCommutativeMonoid(m)
    ensures Sum(m, (i: nat) => m.op(f(i), g(i)), n) == m.op(Sum(m, f, n), Sum(m, g, n))
  {
    if n == 0 {
      OpUnit(m, m.unit);
    } else {
      SumPointwise(m, f, g, n - 1);
      OpExchange(m, Sum(m, f, n - 1), Sum(m, g, n - 1), f(n - 1), g(n - 1));
    }
  }

  /** e and o are the even and the odd positions of f. */
  ghost predicate Interleaved<T(!new)>(f: nat -> T, e: nat -> T, o: nat -> T, h: nat) {
    forall i: nat {:trigger e(i)} {:trigger o(i)} :: i < h ==> e(i) == f(2 * i) && o(i) == f(2 * i + 1)
  }

  /** A sum of 2h terms, even positions first. */
  lemma {:induction false} SumEvenOdd<T(!new)>(m: Monoid<T>, f: nat -> T, e: nat -> T, o: nat -> T, h: nat)
    requires IsCommutativeMonoid(m)
    requires Interleaved(f, e, o, h)
    ensures Sum(m, f, 2 * h) == m.op(Sum(m, e, h), Sum(m, o, h))
  {
    if h == 0 {
      OpUnit(m, m.unit);
    } else {
      SumEvenOdd(m, f, e, o, h - 1);
      var x, y := e(h - 1), o(h - 1);
      assert Sum(m, f, 2 * h) == m.op(m.op(Sum(m, f, 2 * h - 2), x), y) by {
        assert 2 * h - 1 == 2 * (h - 1) + 1 && 2 * h - 2 == 2 * (h - 1);
      }
      OpAssoc(m, Sum(m, f, 2 * h - 2), x, y);
      OpExchange(m, Sum(m, e, h - 1), Sum(m, o, h - 1), x, y);
    }
  }

  /** Rows of b consecutive terms. */
  lemma {:induction false} SumBlocks<T(!new)>(m: Monoid<T>, f: nat -> T, a: nat, b: nat)
    requires IsCommutativeMonoid(m)
    ensures Sum(m, f, a * b) == Sum(m, (i: nat) => Sum(m, (j: nat) => f(i * b + j), b), a)
  {
    hide IsCommutativeMonoid;
    if a > 0 {
      var p := (a - 1) * b;
      SumBlocks(m, f, a - 1, b);
      assert a * b == p + b;
      SumAppend(m, f, p, b);
      SumCongruent(m, (i: nat) => f(p + i), (j: nat) => f((a - 1) * b + j), b);
    }
  }

  function Row<T>(f: (nat, nat) -> T, i: nat): nat -> T { (j: nat) => f(i, j) }

  function Column<T>(f: (nat, nat) -> T, j: nat): nat -> T { (i: nat) => f(i, j) }

  /** Exchange of a double sum. */
  lemma {:induction false} SumSwap<T(!new)>(m: Monoid<T>, f: (nat, nat) -> T, a: nat, b: nat)
    requires IsCommutativeMonoid(m)
    ensures Sum(m, (i: nat) => Sum(m, Row(f, i), b), a) == Sum(m, (j: nat) => Sum(m, Column(f, j), a), b)
  {
    if a == 0 {
      SumOfUnits(m, (j: nat) => Sum(m, Column(f, j), 0), b);
    } else {
      SumSwap(m, f, a - 1, b);
      var last := Row(f, a - 1);
      var rest := (j: nat) => Sum(m, Column(f, j), a - 1);
      SumPointwise(m, rest, last, b);
      SumCongruent(m, (j: nat) => Sum(m, Column(f, j), a), (j: nat) => m.op(rest(j), last(j)), b);
    }
  }

  /** Exchange of a double sum whose row sums and column sums have names. */
  lemma SumSwapTo<T(!new)>(m: Monoid<T>, f: (nat, nat) -> T, a: nat, b: nat, rows: nat -> T, columns: nat -> T)
    requires IsCommutativeMonoid(m)
    requires forall i: nat :: i < a ==> rows(i) == Sum(m, Row(f, i), b)
    requires forall j: nat :: j < b ==> columns(j) == Sum(m, Column(f, j), a)
    ensures Sum(m, rows, a) == Sum(m, columns, b)
  {
    SumSwap(m, f, a, b);
    SumCongruent(m, rows, (i: nat) => Sum(m, Row(f, i), b), a);
    SumCongruent(m, columns, (j: nat) => Sum(m, Column(f, j), a), b);
  }

  // ---------------------------------------------------------------- commutative rings

  datatype Ring<!T(!new)> = Ring(zero: T, one: T, add: (T, T) -> T, mul: (T, T) -> T, neg: T -> T)
  {
    function Additive(): Monoid<T> { Monoid(zero, add) }

    function Multiplicative(): Monoid<T> { Monoid(one, mul) }

    function Sub(a: T, b: T): T { add(a, neg(b)) }
  }

  ghost predicate DistribAt<T(!new)>(r: Ring<T>, a: T, b: T, c: T) {
    r.mul(a, r.add(b, c)) == r.add(r.mul(a, b), r.mul(a, c))
  }

  ghost predicate NegAt<T(!new)>(r: Ring<T>, a: T) {
    r.add(a, r.neg(a)) == r.zero
  }

  ghost predicate IsCommutativeRing<T(!new)>(r: Ring<T>) {
    && IsCommutativeMonoid(r.Additive())
    && IsCommutativeMonoid(r.Multiplicative())
    && (forall a, b, c :: DistribAt(r, a, b, c))
    && (forall a :: NegAt(r, a))
  }

  lemma AdditionIsMonoid<T(!new)>(r: Ring<T>)
    requires IsCommutativeRing(r)
    ensures IsCommutativeMonoid(r.Additive())
  {
  }

  lemma AddAssoc<T(!new)>(r: Ring<T>, a: T, b: T, c: T)
    requires IsCommutativeRing(r)
    ensures r.add(r.add(a, b), c) == r.add(a, r.add(b, c))
  {
    OpAssoc(r.Additive(), a, b, c);
  }

  lemma AddComm<T(!new)>(r: Ring<T>, a: T, b: T)
    requires IsCommutativeRing(r)
    ensures r.add(a, b) == r.add(b, a)
  {
    OpComm(r.Additive(), a, b);
  }

  lemma AddZero<T(!new)>(r: Ring<T>, a: T)
    requires IsCommutativeRing(r)
    ensures r.add(a, r.zero) == a && r.add(r.zero, a) == a
  {
    OpUnit(r.Additive(), a);
  }

  lemma MulAssoc<T(!new)>(r: Ring<T>, a: T, b: T, c: T)
    requires IsCommutativeRing(r)
    ensures r.mul(r.mul(a, b), c) == r.mul(a, r.mul(b, c))
  {
    OpAssoc(r.Multiplicative(), a, b, c);
  }

  lemma MulComm<T(!new)>(r: Ring<T>, a: T, b: T)
    requires IsCommutativeRing(r)
    ensures r.mul(a, b) == r.mul(b, a)
  {
    OpComm(r.Multiplicative(), a, b);
  }

  lemma MulOne<T(!new)>(r: Ring<T>, a: T)
    requires IsCommutativeRing(r)
    ensures r.mul(a, r.one) == a && r.mul(r.one, a) == a
  {
    OpUnit(r.Multiplicative(), a);
  }

  lemma Distrib<T(!new)>(r: Ring<T>, a: T, b: T, c: T)
    requires IsCommutativeRing(r)
    ensures r.mul(a, r.add(b, c)) == r.add(r.mul(a, b), r.mul(a, c))
  {
    assert DistribAt(r, a, b, c);
  }

  lemma AddNeg<T(!new)>(r: Ring<T>, a: T)
    requires IsCommutativeRing(r)
    ensures r.add(a, r.neg(a)) == r.zero
  {
    assert NegAt(r, a);
  }

  /** a + b = 0 determines b. */
  lemma NegUnique<T(!new)>(r: Ring<T>, a: T, b: T)
    requires IsCommutativeRing(r)
    requires r.add(a, b) == r.zero
    ensures b == r.neg(a)
  {
    AddZero(r, b);
    AddNeg(r, a);
    AddComm(r, a, r.neg(a));
    AddAssoc(r, r.neg(a), a, b);
    AddZero(r, r.neg(a));
  }

  lemma MulZero<T(!new)>(r: Ring<T>, a: T)
    requires IsCommutativeRing(r)
    ensures r.mul(a, r.zero) == r.zero && r.mul(r.zero, a) == r.zero
  {
    // a0 + a0 = a0, so a0 = 0
    var z := r.mul(a, r.zero);
    AddZero(r, r.zero);
    Distrib(r, a, r.zero, r.zero);
    AddNeg(r, z);
    AddAssoc(r, z, z, r.neg(z));
    AddZero(r, z);
    MulComm(r, a, r.zero);
  }

  lemma MulNeg<T(!new)>(r: Ring<T>, a: T, b: T)
    requires IsCommutativeRing(r)
    ensures r.mul(a, r.neg(b)) == r.neg(r.mul(a, b)) && r.mul(r.neg(b), a) == r.neg(r.mul(a, b))
  {
    Distrib(r, a, b, r.neg(b));
    AddNeg(r, b);
    MulZero(r, a);
    NegUnique(r, r.mul(a, b), r.mul(a, r.neg(b)));
    MulComm(r, a, r.neg(b));
  }

  lemma NegNeg<T(!new)>(r: Ring<T>, a: T)
    requires IsCommutativeRing(r)
    ensures r.neg(r.neg(a)) == a
  {
    AddNeg(r, a);
    AddComm(r, a, r.neg(a));
    NegUnique(r, r.neg(a), a);
  }

  /** (ab)(cd) = (ac)(bd) */
  lemma MulExchange<T(!new)>(r: Ring<T>, a: T, b: T, c: T, d: T)
    requires IsCommutativeRing(r)
    ensures r.mul(r.mul(a, b), r.mul(c, d)) == r.mul(r.mul(a, c), r.mul(b, d))
  {
    OpExchange(r.Multiplicative(), a, b, c, d);
  }

  function RingSum<T(!new)>(r: Ring<T>, f: nat -> T, n: nat): T {
    Sum(r.Additive(), f, n)
  }

  lemma {:induction false} SumScale<T(!new)>(r: Ring<T>, c: T, f: nat -> T, n: nat)
    requires IsCommutativeRing(r)
    ensures r.mul(c, RingSum(r, f, n)) == RingSum(r, (i: nat) => r.mul(c, f(i)), n)
  {
    if n == 0 {
      MulZero(r, c);
    } else {
      SumScale(r, c, f, n - 1);
      Distrib(r, c, RingSum(r, f, n - 1), f(n - 1));
    }
  }

  /** n copies of one: the integer n inside the ring. */
  function Scalar<T(!new)>(r: Ring<T>, n: nat): T {
    RingSum(r, (i: nat) => r.one, n)
  }

  lemma {:induction false} ScalarMul<T(!new)>(r: Ring<T>, a: nat, b: nat)
    requires IsCommutativeRing(r)
    ensures r.mul(Scalar(r, a), Scalar(r, b)) == Scalar(r, a * b)
  {
    if b == 0 {
      MulZero(r, Scalar(r, a));
    } else {
      var p := a * (b - 1);
      ScalarMul(r, a, b - 1);
      assert a * b == p + a;
      ScalarAdd(r, p, a);
      ScalarAdd(r, b - 1, 1);
      ScalarOne(r);
      hide Scalar, IsCommutativeRing;
      Distrib(r, Scalar(r, a), Scalar(r, b - 1), r.one);
      MulOne(r, Scalar(r, a));
    }
  }

  lemma ScalarOne<T(!new)>(r: Ring<T>)
    requires IsCommutativeRing(r)
    ensures Scalar(r, 1) == r.one && Scalar(r, 0) == r.zero
  {
    SumOne(r.Additive(), (i: nat) => r.one);
  }

  lemma ScalarAdd<T(!new)>(r: Ring<T>, a: nat, b: nat)
    requires IsCommutativeRing(r)
    ensures Scalar(r, a + b) == r.add(Scalar(r, a), Scalar(r, b))
  {
    SumAppend(r.Additive(), (i: nat) => r.one, a, b);
    SumCongruent(r.Additive(), (i: nat) => ((j: nat) => r.one)(a + i), (i: nat) => r.one, b);
  }

  function Pow<T(!new)>(r: Ring<T>, w: T, k: nat): T {
    if k == 0 then r.one else r.mul(Pow(r, w, k - 1), w)
  }

  lemma {:induction false} PowAdd<T(!new)>(r: Ring<T>, w: T, a: nat, b: nat)
    requires IsCommutativeRing(r)
    ensures Pow(r, w, a + b) == r.mul(Pow(r, w, a), Pow(r, w, b))
  {
    if b == 0 {
      MulOne(r, Pow(r, w, a));
    } else {
      PowAdd(r, w, a, b - 1);
      MulAssoc(r, Pow(r, w, a), Pow(r, w, b - 1), w);
    }
  }

  lemma {:induction false} PowMul<T(!new)>(r: Ring<T>, w: T, a: nat, b: nat)
    requires IsCommutativeRing(r)
    ensures Pow(r, Pow(r, w, a), b) == Pow(r, w, a * b)
  {
    if b > 0 {
      PowMul(r, w, a, b - 1);
      assert a * b == a * (b - 1) + a;
      PowAdd(r, w, a * (b - 1), a);
    } else {
      assert a * b == 0;
    }
  }

  lemma {:induction false} PowOne<T(!new)>(r: Ring<T>, k: nat)
    requires IsCommutativeRing(r)
    ensures Pow(r, r.one, k) == r.one
  {
    if k > 0 {
      PowOne(r, k - 1);
      MulOne(r, r.one);
    }
  }

  lemma {:induction false} PowProduct<T(!new)>(r: Ring<T>, a: T, b: T, k: nat)
    requires IsCommutativeRing(r)
    ensures Pow(r, r.mul(a, b), k) == r.mul(Pow(r, a, k), Pow(r, b, k))
  {
    if k == 0 {
      MulOne(r, r.one);
    } else {
      PowProduct(r, a, b, k - 1);
      MulExchange(r, Pow(r, a, k - 1), Pow(r, b, k - 1), a, b);
    }
  }
}
