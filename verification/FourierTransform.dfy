/**
 The discrete Fourier transform over a commutative ring: inversion, separability in two
 dimensions, and the even/odd recurrence behind the radix-2 kernel.
 */
module FourierTransform {
  import opened Algebra
  import opened Bits

  /** w^(j*k) */
  function Twiddle<T(!new)>(r: Ring<T>, w: T, j: nat, k: nat): T {
    Pow(r, w, j * k)
  }

  /** Element k of the length-n transform of x with root w: the sum of x[j] * w^(j*k). */
  function Dft<T(!new)>(r: Ring<T>, w: T, n: nat, x: nat -> T, k: nat): T {
    RingSum(r, (j: nat) => r.mul(x(j), Twiddle(r, w, j, k)), n)
  }

  /** Element (k, l) of the n x n transform: the sum over c, then i, of g[i][c] * w^(i*k + c*l). */
  function Dft2<T(!new)>(r: Ring<T>, w: T, n: nat, g: (nat, nat) -> T, k: nat, l: nat): T {
    RingSum(r, (c: nat) => RingSum(r, (i: nat) => r.mul(g(i, c), Pow(r, w, i * k + c * l)), n), n)
  }

  // ---------------------------------------------------------------- roots of unity

  ghost predicate PrincipalRoot<T(!new)>(r: Ring<T>, w: T, n: nat) {
    && Pow(r, w, n) == r.one
    && forall d: nat :: 0 < d < n ==> PowerSum(r, Pow(r, w, d), n) == r.zero
  }

  /** 1 + a + ... + a^(n - 1) */
  function PowerSum<T(!new)>(r: Ring<T>, a: T, n: nat): T {
    RingSum(r, (k: nat) => Pow(r, a, k), n)
  }

  ghost predicate HalfTurn<T(!new)>(r: Ring<T>, w: T, half: nat) {
    Pow(r, w, half) == r.neg(r.one)
  }

  lemma {:induction false} PowerSumVanishes<T(!new)>(r: Ring<T>, a: T, bits: nat, e: nat)
    requires IsCommutativeRing(r)
    requires e < bits && Pow(r, a, Pow2(e)) == r.neg(r.one)
    ensures PowerSum(r, a, Pow2(bits)) == r.zero
    decreases e
  {
    var h := Pow2(bits - 1);
    var a2 := r.mul(a, a);
    PowerSumSplit(r, a, h);
    if e == 0 {
      assert Pow2(0) == 1;
      MulOne(r, a);
      assert Pow(r, a, 1) == r.mul(Pow(r, a, 0), a);
      AddNeg(r, r.one);
      MulZero(r, PowerSum(r, a2, h));
    } else {
      assert Pow2(e) == 2 * Pow2(e - 1);
      assert a2 == Pow(r, a, 2) by { SquareIsPow2(r, a); }
      PowMul(r, a, 2, Pow2(e - 1));
      PowerSumVanishes(r, a2, bits - 1, e - 1);
      MulZero(r, r.add(r.one, a));
    }
  }

  lemma SquareIsPow2<T(!new)>(r: Ring<T>, a: T)
    requires IsCommutativeRing(r)
    ensures Pow(r, a, 2) == r.mul(a, a)
  {
    assert Pow(r, a, 1) == r.mul(Pow(r, a, 0), a);
    MulOne(r, a);
  }

  /** 1 + a + ... + a^(2h-1) = (1 + a) (1 + a^2 + ... + a^(2(h-1))) */
  lemma PowerSumSplit<T(!new)>(r: Ring<T>, a: T, h: nat)
    requires IsCommutativeRing(r)
    ensures PowerSum(r, a, 2 * h) == r.mul(r.add(r.one, a), PowerSum(r, r.mul(a, a), h))
  {
    var m := r.Additive();
    var a2 := r.mul(a, a);
    var f := (k: nat) => Pow(r, a, k);
    var g := (k: nat) => Pow(r, a2, k);
    var ag := (k: nat) => r.mul(a, g(k));
    forall i: nat | i < h ensures g(i) == f(2 * i) && ag(i) == f(2 * i + 1) {
      SquareIsPow2(r, a);
      PowMul(r, a, 2, i);
      MulComm(r, Pow(r, a, 2 * i), a);
    }
    SumEvenOdd(m, f, g, ag, h);
    var s := RingSum(r, g, h);
    SumScale(r, a, g, h);
    MulOne(r, s);
    Distrib(r, s, r.one, a);
    MulComm(r, s, r.one);
    MulComm(r, s, a);
    MulComm(r, s, r.add(r.one, a));
  }

  /** Every power w^d with 0 < d < 2^bits reaches -1 by repeated squaring. */
  lemma {:induction false} SquaringReachesMinusOne<T(!new)>(r: Ring<T>, w: T, bits: nat, d: nat) returns (e: nat)
    requires IsCommutativeRing(r)
    requires bits > 0 && 0 < d < Pow2(bits)
    requires HalfTurn(r, w, Pow2(bits - 1))
    ensures e < bits && Pow(r, Pow(r, w, d), Pow2(e)) == r.neg(r.one)
    decreases bits
  {
    if d % 2 == 1 {
      e := bits - 1;
      PowMul(r, w, d, Pow2(e));
      PowMul(r, w, Pow2(e), d);
      assert d * Pow2(e) == Pow2(e) * d;
      OddPowerOfMinusOne(r, d);
    } else {
      assert bits > 1;
      assert Pow2(bits - 1) == 2 * Pow2(bits - 2);
      var w2 := Pow(r, w, 2);
      PowMul(r, w, 2, Pow2(bits - 2));
      e := SquaringReachesMinusOne(r, w2, bits - 1, d / 2);
      PowMul(r, w, 2, d / 2);
    }
  }

  lemma {:induction false} OddPowerOfMinusOne<T(!new)>(r: Ring<T>, d: nat)
    requires IsCommutativeRing(r)
    requires d % 2 == 1
    ensures Pow(r, r.neg(r.one), d) == r.neg(r.one)
  {
    var u := r.neg(r.one);
    if d == 1 {
      assert Pow(r, u, 1) == r.mul(Pow(r, u, 0), u);
      MulOne(r, u);
    } else {
      OddPowerOfMinusOne(r, d - 2);
      assert Pow(r, u, d) == r.mul(r.mul(Pow(r, u, d - 2), u), u) by {
        assert Pow(r, u, d - 1) == r.mul(Pow(r, u, d - 2), u);
      }
      MinusOneSquared(r);
      MulOne(r, u);
    }
  }

  lemma MinusOneSquared<T(!new)>(r: Ring<T>)
    requires IsCommutativeRing(r)
    ensures r.mul(r.neg(r.one), r.neg(r.one)) == r.one
  {
    MulNeg(r, r.neg(r.one), r.one);
    MulOne(r, r.neg(r.one));
    NegNeg(r, r.one);
  }

  /** For a power of two n, w^(n/2) = -1 already makes w a principal n-th root of unity. */
  lemma HalfTurnIsPrincipal<T(!new)>(r: Ring<T>, w: T, bits: nat)
    requires IsCommutativeRing(r)
    requires bits > 0 && HalfTurn(r, w, Pow2(bits - 1))
    ensures PrincipalRoot(r, w, Pow2(bits))
  {
    var n := Pow2(bits);
    PowAdd(r, w, Pow2(bits - 1), Pow2(bits - 1));
    MinusOneSquared(r);
    forall d: nat | 0 < d < n ensures PowerSum(r, Pow(r, w, d), n) == r.zero {
      var e := SquaringReachesMinusOne(r, w, bits, d);
      PowerSumVanishes(r, Pow(r, w, d), bits, e);
    }
  }

  /** If w v = 1 and w is a half turn at half, so is v. */
  lemma InverseHalfTurn<T(!new)>(r: Ring<T>, w: T, v: T, half: nat)
    requires IsCommutativeRing(r)
    requires r.mul(w, v) == r.one && HalfTurn(r, w, half)
    ensures HalfTurn(r, v, half)
  {
    var a := Pow(r, v, half);
    PowProduct(r, w, v, half);
    PowOne(r, half);
    MulNeg(r, a, r.one);
    MulOne(r, a);
    assert r.neg(a) == r.one;
    NegNeg(r, a);
  }

  // ---------------------------------------------------------------- inversion

  /** w^j v^i = w^d where d is (j - i) mod n. */
  lemma QuotientPower<T(!new)>(r: Ring<T>, w: T, v: T, n: nat, j: nat, i: nat)
    requires IsCommutativeRing(r)
    requires r.mul(w, v) == r.one && Pow(r, w, n) == r.one
    requires j < n && i < n
    ensures r.mul(Pow(r, w, j), Pow(r, v, i)) == Pow(r, w, if j >= i then j - i else n + j - i)
  {
    var d := if j >= i then j - i else n + j - i;
    // w^d w^i = w^j, then multiply by v^i
    PowAdd(r, w, d, i);
    if j < i {
      PowAdd(r, w, n, j);
      MulOne(r, Pow(r, w, j));
    }
    assert r.mul(Pow(r, w, d), Pow(r, w, i)) == Pow(r, w, j);
    PowProduct(r, w, v, i);
    PowOne(r, i);
    MulAssoc(r, Pow(r, w, d), Pow(r, w, i), Pow(r, v, i));
    MulOne(r, Pow(r, w, d));
  }

  /** w^(jk) v^(ki) = (w^j v^i)^k */
  lemma TwiddleQuotient<T(!new)>(r: Ring<T>, w: T, v: T, j: nat, i: nat, k: nat)
    requires IsCommutativeRing(r)
    ensures r.mul(Twiddle(r, w, j, k), Twiddle(r, v, k, i)) == Pow(r, r.mul(Pow(r, w, j), Pow(r, v, i)), k)
  {
    PowMul(r, w, j, k);
    PowMul(r, v, i, k);
    assert i * k == k * i;
    PowProduct(r, Pow(r, w, j), Pow(r, v, i), k);
  }

  /** Sum over k of w^(jk) v^(ki): n when i = j, zero otherwise. */
  lemma Orthogonality<T(!new)>(r: Ring<T>, w: T, v: T, n: nat, j: nat, i: nat)
    requires IsCommutativeRing(r)
    requires r.mul(w, v) == r.one && PrincipalRoot(r, w, n)
    requires j < n && i < n
    ensures RingSum(r, (k: nat) => r.mul(Twiddle(r, w, j, k), Twiddle(r, v, k, i)), n) ==
            if i == j then Scalar(r, n) else r.zero
  {
    var d := if j >= i then j - i else n + j - i;
    var a := Pow(r, w, d);
    forall k: nat | k < n ensures r.mul(Twiddle(r, w, j, k), Twiddle(r, v, k, i)) == Pow(r, a, k) {
      QuotientPower(r, w, v, n, j, i);
      TwiddleQuotient(r, w, v, j, i, k);
    }
    SumCongruent(r.Additive(), (k: nat) => r.mul(Twiddle(r, w, j, k), Twiddle(r, v, k, i)),
                 (k: nat) => Pow(r, a, k), n);
    if i == j {
      forall k: nat | k < n ensures Pow(r, a, k) == r.one {
        PowOne(r, k);
      }
      SumCongruent(r.Additive(), (k: nat) => Pow(r, a, k), (k: nat) => r.one, n);
    }
  }

  /** The double sum behind a transform followed by its inverse. */
  function InversionTerm<T(!new)>(r: Ring<T>, w: T, v: T, x: nat -> T, i: nat): (nat, nat) -> T {
    (k: nat, j: nat) => r.mul(x(j), r.mul(Twiddle(r, w, j, k), Twiddle(r, v, k, i)))
  }

  lemma InversionColumn<T(!new)>(r: Ring<T>, w: T, v: T, n: nat, x: nat -> T, i: nat, j: nat)
    requires IsCommutativeRing(r)
    requires r.mul(w, v) == r.one && PrincipalRoot(r, w, n)
    requires j < n && i < n
    ensures RingSum(r, Column(InversionTerm(r, w, v, x, i), j), n) ==
            if j == i then r.mul(x(i), Scalar(r, n)) else r.zero
  {
    hide Twiddle;
    var h := (k: nat) => r.mul(Twiddle(r, w, j, k), Twiddle(r, v, k, i));
    SumScale(r, x(j), h, n);
    SumCongruent(r.Additive(), Column(InversionTerm(r, w, v, x, i), j), (k: nat) => r.mul(x(j), h(k)), n);
    Orthogonality(r, w, v, n, j, i);
    MulZero(r, x(j));
  }

  /** Transforming with w and then with its inverse v multiplies by n. */
  lemma DftInversion<T(!new)>(r: Ring<T>, w: T, v: T, n: nat, x: nat -> T, i: nat)
    requires IsCommutativeRing(r)
    requires r.mul(w, v) == r.one && PrincipalRoot(r, w, n)
    requires i < n
    ensures Dft(r, v, n, (k: nat) => Dft(r, w, n, x, k), i) == r.mul(Scalar(r, n), x(i))
  {
    hide Twiddle, PrincipalRoot;
    var m := r.Additive();
    var f := InversionTerm(r, w, v, x, i);
    var rows := (k: nat) => r.mul(Dft(r, w, n, x, k), Twiddle(r, v, k, i));
    var columns := (j: nat) => if j == i then r.mul(x(i), Scalar(r, n)) else r.zero;
    forall k: nat | k < n ensures rows(k) == Sum(m, Row(f, k), n) {
      ScaledTerm(r, w, n, x, k, Twiddle(r, v, k, i));
      SumCongruent(m, Row(f, k), (j: nat) => r.mul(x(j), r.mul(Twiddle(r, w, j, k), Twiddle(r, v, k, i))), n);
    }
    forall j: nat | j < n ensures columns(j) == Sum(m, Column(f, j), n) {
      InversionColumn(r, w, v, n, x, i, j);
    }
    SumSwapTo(m, f, n, n, rows, columns);
    SumSingle(m, columns, n, i);
    MulComm(r, x(i), Scalar(r, n));
    SumCongruent(m, rows, (k: nat) => r.mul(((k': nat) => Dft(r, w, n, x, k'))(k), Twiddle(r, v, k, i)), n);
  }

  /** A transform times a constant, term by term. */
  lemma ScaledTerm<T(!new)>(r: Ring<T>, w: T, n: nat, x: nat -> T, k: nat, c: T)
    requires IsCommutativeRing(r)
    ensures r.mul(Dft(r, w, n, x, k), c) ==
            RingSum(r, (j: nat) => r.mul(x(j), r.mul(Twiddle(r, w, j, k), c)), n)
  {
    hide Twiddle;
    var t := (j: nat) => r.mul(x(j), Twiddle(r, w, j, k));
    MulComm(r, Dft(r, w, n, x, k), c);
    SumScale(r, c, t, n);
    forall j: nat | j < n ensures r.mul(c, t(j)) == r.mul(x(j), r.mul(Twiddle(r, w, j, k), c)) {
      MulComm(r, c, t(j));
      MulAssoc(r, x(j), Twiddle(r, w, j, k), c);
    }
    SumCongruent(r.Additive(), (j: nat) => r.mul(c, t(j)),
                 (j: nat) => r.mul(x(j), r.mul(Twiddle(r, w, j, k), c)), n);
  }

  // ---------------------------------------------------------------- two dimensions

  lemma TwiddleProduct<T(!new)>(r: Ring<T>, w: T, i: nat, k: nat, c: nat, l: nat)
    requires IsCommutativeRing(r)
    ensures r.mul(Twiddle(r, w, i, k), Twiddle(r, w, c, l)) == Pow(r, w, i * k + c * l)
  {
    PowAdd(r, w, i * k, c * l);
  }

  /** The inner sum of the 2D transform: one column's transform times the twiddle of the column. */
  lemma ColumnFactor<T(!new)>(r: Ring<T>, w: T, n: nat, g: (nat, nat) -> T, k: nat, l: nat, c: nat)
    requires IsCommutativeRing(r)
    ensures RingSum(r, (i: nat) => r.mul(g(i, c), Pow(r, w, i * k + c * l)), n) ==
            r.mul(Dft(r, w, n, (i: nat) => g(i, c), k), Twiddle(r, w, c, l))
  {
    hide Twiddle, IsCommutativeRing, Pow, Dft, Sum;
    var x := (i: nat) => g(i, c);
    ScaledTerm(r, w, n, x, k, Twiddle(r, w, c, l));
    forall i: nat | i < n
      ensures r.mul(x(i), r.mul(Twiddle(r, w, i, k), Twiddle(r, w, c, l))) ==
              r.mul(g(i, c), Pow(r, w, i * k + c * l))
    {
      TwiddleProduct(r, w, i, k, c, l);
    }
    SumCongruent(r.Additive(), (i: nat) => r.mul(x(i), r.mul(Twiddle(r, w, i, k), Twiddle(r, w, c, l))),
                 (i: nat) => r.mul(g(i, c), Pow(r, w, i * k + c * l)), n);
  }

  /** A sum of products in which every factor but the one at p vanishes. */
  lemma OneTerm<T(!new)>(r: Ring<T>, f: nat -> T, x: nat -> T, y: nat -> T, n: nat, p: nat)
    requires IsCommutativeRing(r) && p < n
    requires forall i: nat :: i < n ==> f(i) == r.mul(x(i), y(i)) && (i != p ==> x(i) == r.zero)
    ensures RingSum(r, f, n) == r.mul(x(p), y(p))
  {
    AdditionIsMonoid(r);
    hide IsCommutativeRing, IsCommutativeMonoid, Sum;
    forall i: nat | i < n && i != p ensures f(i) == r.zero {
      MulZero(r, y(i));
    }
    SumSingle(r.Additive(), f, n, p);
  }

  lemma ImpulseDft<T(!new)>(r: Ring<T>, w: T, n: nat, x: nat -> T, a: nat, k: nat)
    requires IsCommutativeRing(r) && a < n
    requires forall i: nat :: i < n && i != a ==> x(i) == r.zero
    ensures Dft(r, w, n, x, k) == r.mul(x(a), Twiddle(r, w, a, k))
  {
    hide IsCommutativeRing, Twiddle, RingSum;
    OneTerm(r, (j: nat) => r.mul(x(j), Twiddle(r, w, j, k)), x, (j: nat) => Twiddle(r, w, j, k), n, a);
  }

  lemma ImpulseColumn<T(!new)>(r: Ring<T>, w: T, n: nat, g: (nat, nat) -> T, a: nat, b: nat, k: nat, l: nat, c: nat)
    requires IsCommutativeRing(r) && a < n && b < n && c < n
    requires forall i: nat, j: nat :: i < n && j < n && (i, j) != (a, b) ==> g(i, j) == r.zero
    ensures r.mul(Dft(r, w, n, (i: nat) => g(i, c), k), Twiddle(r, w, c, l)) ==
            if c == b then r.mul(g(a, b), Pow(r, w, a * k + b * l)) else r.zero
  {
    hide IsCommutativeRing, Pow, Twiddle, Dft;
    ImpulseDft(r, w, n, (i: nat) => g(i, c), a, k);
    if c == b {
      MulAssoc(r, g(a, b), Twiddle(r, w, a, k), Twiddle(r, w, b, l));
      TwiddleProduct(r, w, a, k, b, l);
    } else {
      assert (a, c) != (a, b);
      MulZero(r, Twiddle(r, w, a, k));
      MulZero(r, Twiddle(r, w, c, l));
    }
  }

  /** A grid that is zero except at (a, b) has the transform g[a][b] w^(ak + bl). */
  lemma ImpulseTransform<T(!new)>(r: Ring<T>, w: T, n: nat, g: (nat, nat) -> T, a: nat, b: nat, k: nat, l: nat)
    requires IsCommutativeRing(r) && a < n && b < n
    requires forall i: nat, j: nat :: i < n && j < n && (i, j) != (a, b) ==> g(i, j) == r.zero
    ensures Dft2(r, w, n, g, k, l) == r.mul(g(a, b), Pow(r, w, a * k + b * l))
  {
    var columns := (c: nat) => RingSum(r, (i: nat) => r.mul(g(i, c), Pow(r, w, i * k + c * l)), n);
    AdditionIsMonoid(r);
    hide Pow, IsCommutativeRing, IsCommutativeMonoid, Sum, Twiddle, Dft;
    forall c: nat | c < n ensures columns(c) == if c == b then r.mul(g(a, b), Pow(r, w, a * k + b * l)) else r.zero {
      ColumnFactor(r, w, n, g, k, l, c);
      ImpulseColumn(r, w, n, g, a, b, k, l, c);
    }
    SumSingle(r.Additive(), columns, n, b);
  }

  /** The 2D transform is a transform along each column followed by one along each row. */
  lemma ColumnsThenRows<T(!new)>(r: Ring<T>, w: T, n: nat, g: (nat, nat) -> T, k: nat, l: nat)
    requires IsCommutativeRing(r)
    ensures Dft2(r, w, n, g, k, l) == Dft(r, w, n, (c: nat) => Dft(r, w, n, (i: nat) => g(i, c), k), l)
  {
    hide Twiddle;
    var inner := (c: nat) => RingSum(r, (i: nat) => r.mul(g(i, c), Pow(r, w, i * k + c * l)), n);
    var columns := (c: nat) => Dft(r, w, n, (i: nat) => g(i, c), k);
    var outer := (c: nat) => r.mul(columns(c), Twiddle(r, w, c, l));
    forall c: nat {:trigger inner(c)} | c < n ensures inner(c) == outer(c) {
      ColumnFactor(r, w, n, g, k, l, c);
    }
    SumCongruent(r.Additive(), inner, outer, n);
  }

  lemma Dft2Transpose<T(!new)>(r: Ring<T>, w: T, n: nat, g: (nat, nat) -> T, k: nat, l: nat)
    requires IsCommutativeRing(r)
    ensures Dft2(r, w, n, g, k, l) == Dft2(r, w, n, (c: nat, i: nat) => g(i, c), l, k)
  {
    AdditionIsMonoid(r);
    hide IsCommutativeRing, IsCommutativeMonoid, Pow;
    var m := r.Additive();
    var t := (c: nat, i: nat) => r.mul(g(i, c), Pow(r, w, i * k + c * l));
    var rows := (c: nat) => RingSum(r, (i: nat) => r.mul(g(i, c), Pow(r, w, i * k + c * l)), n);
    var gt := (c: nat, i: nat) => g(i, c);
    var columns := (i: nat) => RingSum(r, (c: nat) => r.mul(gt(c, i), Pow(r, w, c * l + i * k)), n);
    forall c: nat | c < n ensures rows(c) == Sum(m, Row(t, c), n) {
      SumCongruent(m, Row(t, c), (i: nat) => r.mul(g(i, c), Pow(r, w, i * k + c * l)), n);
    }
    forall i: nat | i < n ensures columns(i) == Sum(m, Column(t, i), n) {
      SumCongruent(m, Column(t, i), (c: nat) => r.mul(gt(c, i), Pow(r, w, c * l + i * k)), n);
    }
    SumSwapTo(m, t, n, n, rows, columns);
  }

  /** The 2D transform is also a transform along each row followed by one along each column. */
  lemma RowsThenColumns<T(!new)>(r: Ring<T>, w: T, n: nat, g: (nat, nat) -> T, k: nat, l: nat)
    requires IsCommutativeRing(r)
    ensures Dft2(r, w, n, g, k, l) == Dft(r, w, n, (i: nat) => Dft(r, w, n, (c: nat) => g(i, c), l), k)
  {
    var gt := (c: nat, i: nat) => g(i, c);
    Dft2Transpose(r, w, n, g, k, l);
    ColumnsThenRows(r, w, n, gt, l, k);
    var inner := (i: nat) => Dft(r, w, n, (c: nat) => gt(c, i), l);
    var wanted := (i: nat) => Dft(r, w, n, (c: nat) => g(i, c), l);
    forall i: nat {:trigger inner(i)} | i < n ensures inner(i) == wanted(i) {
      DftCongruent(r, w, n, (c: nat) => gt(c, i), (c: nat) => g(i, c), l);
    }
    DftCongruent(r, w, n, inner, wanted, k);
  }

  lemma DftCongruent<T(!new)>(r: Ring<T>, w: T, n: nat, x: nat -> T, y: nat -> T, k: nat)
    requires forall i: nat :: i < n ==> x(i) == y(i)
    ensures Dft(r, w, n, x, k) == Dft(r, w, n, y, k)
  {
    hide Twiddle;
    SumCongruent(r.Additive(), (j: nat) => r.mul(x(j), Twiddle(r, w, j, k)),
                 (j: nat) => r.mul(y(j), Twiddle(r, w, j, k)), n);
  }

  lemma DftScale<T(!new)>(r: Ring<T>, w: T, n: nat, c: T, x: nat -> T, k: nat)
    requires IsCommutativeRing(r)
    ensures Dft(r, w, n, (i: nat) => r.mul(c, x(i)), k) == r.mul(c, Dft(r, w, n, x, k))
  {
    hide Twiddle;
    SumScale(r, c, (j: nat) => r.mul(x(j), Twiddle(r, w, j, k)), n);
    forall j: nat | j < n
      ensures r.mul(r.mul(c, x(j)), Twiddle(r, w, j, k)) == r.mul(c, r.mul(x(j), Twiddle(r, w, j, k)))
    {
      MulAssoc(r, c, x(j), Twiddle(r, w, j, k));
    }
    SumCongruent(r.Additive(), (j: nat) => r.mul(((i: nat) => r.mul(c, x(i)))(j), Twiddle(r, w, j, k)),
                 (j: nat) => r.mul(c, ((j': nat) => r.mul(x(j'), Twiddle(r, w, j', k)))(j)), n);
  }

  /** Forward then inverse in two dimensions multiplies the grid by n * n. */
  lemma Dft2Inversion<T(!new)>(r: Ring<T>, w: T, v: T, n: nat, g: (nat, nat) -> T, i: nat, c: nat)
    requires IsCommutativeRing(r)
    requires r.mul(w, v) == r.one && PrincipalRoot(r, w, n)
    requires i < n && c < n
    ensures Dft2(r, v, n, (k: nat, l: nat) => Dft2(r, w, n, g, k, l), i, c) ==
            r.mul(Scalar(r, n * n), g(i, c))
  {
    var s := Scalar(r, n);
    var spectrum := (k: nat, l: nat) => Dft2(r, w, n, g, k, l);
    var column := (k: nat) => Dft(r, w, n, (i': nat) => g(i', c), k);
    RowsThenColumns(r, v, n, spectrum, i, c);
    // along each row of the spectrum the inverse undoes the row half of the forward transform
    forall k: nat | k < n
      ensures Dft(r, v, n, (l: nat) => spectrum(k, l), c) == r.mul(s, column(k))
    {
      var cols := (c': nat) => Dft(r, w, n, (i': nat) => g(i', c'), k);
      forall l: nat | l < n ensures spectrum(k, l) == Dft(r, w, n, cols, l) {
        ColumnsThenRows(r, w, n, g, k, l);
      }
      DftCongruent(r, v, n, (l: nat) => spectrum(k, l), (l: nat) => Dft(r, w, n, cols, l), c);
      DftInversion(r, w, v, n, cols, c);
    }
    DftCongruent(r, v, n, (k: nat) => Dft(r, v, n, (l: nat) => spectrum(k, l), c),
                 (k: nat) => r.mul(s, column(k)), i);
    DftScale(r, v, n, s, column, i);
    DftInversion(r, w, v, n, (i': nat) => g(i', c), i);
    DftCongruent(r, v, n, column, (k: nat) => Dft(r, w, n, (i': nat) => g(i', c), k), i);
    MulAssoc(r, s, s, g(i, c));
    ScalarMul(r, n, n);
  }

  // ---------------------------------------------------------------- the radix-2 recurrence

  /** The strided slice x[off], x[off + st], x[off + 2 st], ... */
  function Slice<T>(x: nat -> T, off: nat, st: nat): nat -> T {
    (j: nat) => x(off + j * st)
  }

  /** The length-m transform of a slice at frequency k. */
  function SliceDft<T(!new)>(r: Ring<T>, w: T, m: nat, x: nat -> T, off: nat, st: nat, k: nat): T {
    Dft(r, w, m, Slice(x, off, st), k)
  }

  lemma EvenOddPowers<T(!new)>(r: Ring<T>, w: T, k: nat, j: nat)
    requires IsCommutativeRing(r)
    ensures Twiddle(r, w, 2 * j, k) == Twiddle(r, r.mul(w, w), j, k)
    ensures Twiddle(r, w, 2 * j + 1, k) == r.mul(Twiddle(r, r.mul(w, w), j, k), Pow(r, w, k))
  {
    var e := j * k;
    assert (2 * j) * k == 2 * e && (2 * j + 1) * k == 2 * e + k;
    SquareIsPow2(r, w);
    PowMul(r, w, 2, e);
    PowAdd(r, w, 2 * e, k);
  }

  /** Transform of the even positions plus twiddle times the transform of the odd positions. */
  lemma EvenOddSplit<T(!new)>(r: Ring<T>, w: T, h: nat, y: nat -> T, even: nat -> T, odd: nat -> T, k: nat)
    requires IsCommutativeRing(r)
    requires Interleaved(y, even, odd, h)
    ensures Dft(r, w, 2 * h, y, k) ==
            r.add(Dft(r, r.mul(w, w), h, even, k), r.mul(Dft(r, r.mul(w, w), h, odd, k), Pow(r, w, k)))
  {
    hide Twiddle;
    var w2 := r.mul(w, w);
    var f := (j: nat) => r.mul(y(j), Twiddle(r, w, j, k));
    var e := (j: nat) => r.mul(even(j), Twiddle(r, w2, j, k));
    var o := (j: nat) => r.mul(odd(j), r.mul(Twiddle(r, w2, j, k), Pow(r, w, k)));
    forall j: nat | j < h ensures e(j) == f(2 * j) && o(j) == f(2 * j + 1) {
      EvenOddPowers(r, w, k, j);
    }
    SumEvenOdd(r.Additive(), f, e, o, h);
    ScaledTerm(r, w2, h, odd, k, Pow(r, w, k));
  }

  lemma SliceInterleaves<T(!new)>(x: nat -> T, off: nat, st: nat, h: nat)
    ensures Interleaved(Slice(x, off, st), Slice(x, off, 2 * st), Slice(x, off + st, 2 * st), h)
  {
    var y, e, o := Slice(x, off, st), Slice(x, off, 2 * st), Slice(x, off + st, 2 * st);
    forall j: nat | j < h ensures e(j) == y(2 * j) && o(j) == y(2 * j + 1) {
      assert (2 * j) * st == j * (2 * st) && (2 * j + 1) * st == st + j * (2 * st);
    }
  }

  /** Even slice plus twiddle times odd slice. */
  lemma EvenOddRecurrence<T(!new)>(r: Ring<T>, w: T, h: nat, x: nat -> T, off: nat, st: nat, k: nat)
    requires IsCommutativeRing(r)
    ensures SliceDft(r, w, 2 * h, x, off, st, k) ==
            r.add(SliceDft(r, r.mul(w, w), h, x, off, 2 * st, k),
                  r.mul(SliceDft(r, r.mul(w, w), h, x, off + st, 2 * st, k), Pow(r, w, k)))
  {
    SliceInterleaves(x, off, st, h);
    EvenOddSplit(r, w, h, Slice(x, off, st), Slice(x, off, 2 * st), Slice(x, off + st, 2 * st), k);
  }

  lemma TwiddlePeriodic<T(!new)>(r: Ring<T>, u: T, h: nat, j: nat, k: nat)
    requires IsCommutativeRing(r)
    requires Pow(r, u, h) == r.one
    ensures Twiddle(r, u, j, k + h) == Twiddle(r, u, j, k)
  {
    var e := j * k;
    assert j * (k + h) == e + h * j;
    PowAdd(r, u, e, h * j);
    PowMul(r, u, h, j);
    PowOne(r, j);
    MulOne(r, Pow(r, u, e));
  }

  /** A length-h transform repeats with period h. */
  lemma DftPeriodic<T(!new)>(r: Ring<T>, u: T, h: nat, x: nat -> T, k: nat)
    requires IsCommutativeRing(r)
    requires Pow(r, u, h) == r.one
    ensures Dft(r, u, h, x, k + h) == Dft(r, u, h, x, k)
  {
    hide Twiddle;
    var f := (j: nat) => r.mul(x(j), Twiddle(r, u, j, k + h));
    var g := (j: nat) => r.mul(x(j), Twiddle(r, u, j, k));
    forall j: nat | j < h ensures f(j) == g(j) {
      TwiddlePeriodic(r, u, h, j, k);
    }
    SumCongruent(r.Additive(), f, g, h);
  }

  /** One butterfly computes frequencies k and k + h of the double-length transform. */
  lemma Butterfly<T(!new)>(r: Ring<T>, w: T, h: nat, x: nat -> T, off: nat, st: nat, k: nat)
    requires IsCommutativeRing(r)
    requires HalfTurn(r, w, h)
    ensures var u := SliceDft(r, r.mul(w, w), h, x, off, 2 * st, k);
            var t := r.mul(SliceDft(r, r.mul(w, w), h, x, off + st, 2 * st, k), Pow(r, w, k));
            && SliceDft(r, w, 2 * h, x, off, st, k) == r.add(u, t)
            && SliceDft(r, w, 2 * h, x, off, st, k + h) == r.Sub(u, t)
  {
    var w2 := r.mul(w, w);
    EvenOddRecurrence(r, w, h, x, off, st, k);
    EvenOddRecurrence(r, w, h, x, off, st, k + h);
    assert Pow(r, w2, h) == r.one by {
      SquareIsPow2(r, w);
      PowMul(r, w, 2, h);
      PowMul(r, w, h, 2);
      assert 2 * h == h * 2;
      SquareIsPow2(r, Pow(r, w, h));
      MinusOneSquared(r);
    }
    DftPeriodic(r, w2, h, Slice(x, off, 2 * st), k);
    DftPeriodic(r, w2, h, Slice(x, off + st, 2 * st), k);
    PowAdd(r, w, k, h);
    MulNeg(r, Pow(r, w, k), r.one);
    MulOne(r, Pow(r, w, k));
    MulNeg(r, SliceDft(r, w2, h, x, off + st, 2 * st, k), Pow(r, w, k));
  }
}
