/**
 Ridge regression over the reals: the normal equations, the loss they minimise, and the penalty
 that keeps them solvable.
 */
module Ridge {
  import opened Algebra
  import opened GaussJordan
  import opened Reals

  type Matrix = (nat, nat) -> real

  // ---------------------------------------------------------------- samples, loss, normal equations

  /** What v predicts for sample k: row k of x applied to v. */
  function Predict(x: Matrix, d: nat, v: Vec): Vec {
    (k: nat) => Sigma((i: nat) => Times(x(k, i), v(i)), d)
  }

  /** Column i of x against u, over the samples. */
  function Back(x: Matrix, n: nat, u: Vec): Vec {
    (i: nat) => Sigma((k: nat) => Times(x(k, i), u(k)), n)
  }

  function Inner(u: Vec, v: Vec, n: nat): real {
    Sigma((k: nat) => Times(u(k), v(k)), n)
  }

  function Residual(x: Matrix, y: Vec, d: nat, v: Vec): Vec {
    (k: nat) => Predict(x, d, v)(k) - y(k)
  }

  function Plus(v: Vec, e: Vec): Vec { (i: nat) => v(i) + e(i) }

  /** Squared error of the predictions for one target column, plus the penalty. */
  function Loss(x: Matrix, y: Vec, n: nat, d: nat, lambda: real, v: Vec): real {
    Inner(Residual(x, y, d, v), Residual(x, y, d, v), n) + lambda * Inner(v, v, d)
  }

  /** Entry i of (X'X + lambda I) v. */
  function NormalSide(x: Matrix, n: nat, d: nat, lambda: real, v: Vec, i: nat): real {
    Back(x, n, Predict(x, d, v))(i) + lambda * v(i)
  }

  /** (X'X + lambda I) v = X'y */
  ghost predicate Normal(x: Matrix, y: Vec, n: nat, d: nat, lambda: real, v: Vec) {
    forall i: nat :: i < d ==> NormalSide(x, n, d, lambda, v, i) == Back(x, n, y)(i)
  }

  /** u . (X v) = v . (X' u) */
  lemma Adjoint(x: Matrix, n: nat, d: nat, u: Vec, v: Vec)
    ensures Inner(u, Predict(x, d, v), n) == Inner(v, Back(x, n, u), d)
  {
    hide IsCommutativeMonoid, Sum, Times;
    PlusIsMonoid();
    var f := (k: nat, i: nat) => Times(u(k), Times(x(k, i), v(i)));
    var rows := (k: nat) => Times(u(k), Predict(x, d, v)(k));
    var columns := (i: nat) => Times(v(i), Back(x, n, u)(i));
    forall k: nat | k < n ensures rows(k) == Sum(PLUS, Algebra.Row(f, k), d) {
      ScaleSum(u(k), (i: nat) => Times(x(k, i), v(i)), Algebra.Row(f, k), d);
    }
    forall i: nat | i < d ensures columns(i) == Sum(PLUS, Algebra.Column(f, i), n) {
      forall k: nat | k < n ensures f(k, i) == Times(v(i), Times(x(k, i), u(k))) {
        TimesLaws(u(k), x(k, i), v(i));
        TimesLaws(v(i), x(k, i), u(k));
        TimesLaws(Times(u(k), x(k, i)), v(i), v(i));
      }
      ScaleSum(v(i), (k: nat) => Times(x(k, i), u(k)), Algebra.Column(f, i), n);
    }
    SumSwapTo(PLUS, f, n, d, rows, columns);
  }

  lemma ScaleSum(c: real, f: Vec, g: Vec, n: nat)
    requires forall i: nat :: i < n ==> g(i) == Times(c, f(i))
    ensures Times(c, Sigma(f, n)) == c * Sigma(f, n) == Sigma(g, n) == Sum(PLUS, g, n)
  {
    SigmaScale(c, f, g, n);
  }

  lemma InnerAdd(u: Vec, v: Vec, w: Vec, s: Vec, n: nat)
    requires forall i: nat :: i < n ==> s(i) == v(i) + w(i)
    ensures Inner(u, s, n) == Inner(u, v, n) + Inner(u, w, n)
  {
    SigmaAdd((k: nat) => Times(u(k), v(k)), (k: nat) => Times(u(k), w(k)), (k: nat) => Times(u(k), s(k)), n);
  }

  lemma InnerScale(u: Vec, v: Vec, c: real, s: Vec, n: nat)
    requires forall i: nat :: i < n ==> s(i) == c * v(i)
    ensures Inner(u, s, n) == c * Inner(u, v, n)
  {
    forall k: nat | k < n ensures Times(u(k), s(k)) == c * Times(u(k), v(k)) {
      TimesLaws(u(k), c, v(k));
      TimesLaws(c, u(k), v(k));
      TimesLaws(u(k), c, 0.0);
    }
    SigmaScale(c, (k: nat) => Times(u(k), v(k)), (k: nat) => Times(u(k), s(k)), n);
  }

  lemma InnerComm(u: Vec, v: Vec, n: nat)
    ensures Inner(u, v, n) == Inner(v, u, n)
  {
    forall k: nat | k < n ensures Times(u(k), v(k)) == Times(v(k), u(k)) {
      TimesLaws(u(k), v(k), 0.0);
    }
    SigmaSame((k: nat) => Times(u(k), v(k)), (k: nat) => Times(v(k), u(k)), n);
  }

  lemma InnerSame(u: Vec, v: Vec, w: Vec, n: nat)
    requires forall i: nat :: i < n ==> v(i) == w(i)
    ensures Inner(u, v, n) == Inner(u, w, n)
  {
    SigmaSame((k: nat) => Times(u(k), v(k)), (k: nat) => Times(u(k), w(k)), n);
  }

  lemma SquarePositive(v: Vec, n: nat)
    ensures Inner(v, v, n) >= 0.0
  {
    forall k: nat | k < n ensures 0.0 <= Times(v(k), v(k)) {
      TimesLaws(v(k), v(k), 0.0);
    }
    SigmaOrder((k: nat) => 0.0, (k: nat) => Times(v(k), v(k)), n);
    SigmaConst(0.0, (k: nat) => 0.0, n);
  }

  /** (v + e) . (v + e) */
  lemma SquareOfSum(v: Vec, e: Vec, s: Vec, n: nat)
    requires forall i: nat :: i < n ==> s(i) == v(i) + e(i)
    ensures Inner(s, s, n) == Inner(v, v, n) + 2.0 * Inner(v, e, n) + Inner(e, e, n)
  {
    hide Inner;
    InnerAdd(s, v, e, s, n);
    InnerComm(s, v, n);
    InnerComm(s, e, n);
    InnerAdd(v, v, e, s, n);
    InnerAdd(e, v, e, s, n);
    InnerComm(e, v, n);
  }

  lemma PredictAdd(x: Matrix, d: nat, v: Vec, e: Vec, s: Vec, k: nat)
    requires forall i: nat :: i < d ==> s(i) == v(i) + e(i)
    ensures Predict(x, d, s)(k) == Predict(x, d, v)(k) + Predict(x, d, e)(k)
  {
    SigmaAdd((i: nat) => Times(x(k, i), v(i)), (i: nat) => Times(x(k, i), e(i)), (i: nat) => Times(x(k, i), s(i)), d);
  }

  /** A solution of the normal equations minimises the loss: moving away by e adds |X e|^2 + lambda |e|^2. */
  lemma NormalMinimises(x: Matrix, y: Vec, n: nat, d: nat, lambda: real, v: Vec, e: Vec)
    requires Normal(x, y, n, d, lambda, v)
    ensures Loss(x, y, n, d, lambda, Plus(v, e)) == Loss(x, y, n, d, lambda, v)
              + Inner(Predict(x, d, e), Predict(x, d, e), n) + lambda * Inner(e, e, d)
    ensures lambda >= 0.0 ==> Loss(x, y, n, d, lambda, Plus(v, e)) >= Loss(x, y, n, d, lambda, v)
  {
    hide Inner, Predict, Normal, Residual;
    var q, err := Predict(x, d, e), Residual(x, y, d, v);
    ErrorMoves(x, y, d, v, e);
    SquareOfSum(err, q, Residual(x, y, d, Plus(v, e)), n);
    SquareOfSum(v, e, Plus(v, e), d);
    CrossTerm(x, y, n, d, lambda, v, e);
    SquarePositive(q, n);
    SquarePositive(e, d);
    LossArithmetic(lambda, Inner(v, v, d), Inner(v, e, d), Inner(e, e, d), Inner(err, q, n));
  }

  lemma ErrorMoves(x: Matrix, y: Vec, d: nat, v: Vec, e: Vec)
    ensures forall k: nat :: Residual(x, y, d, Plus(v, e))(k) == Residual(x, y, d, v)(k) + Predict(x, d, e)(k)
  {
    forall k: nat
      ensures Residual(x, y, d, Plus(v, e))(k) == Residual(x, y, d, v)(k) + Predict(x, d, e)(k)
    {
      PredictAdd(x, d, v, e, Plus(v, e), k);
    }
  }

  lemma LossArithmetic(lambda: real, vv: real, ve: real, ee: real, cross: real)
    requires cross + lambda * ve == 0.0
    ensures 2.0 * cross + lambda * (vv + 2.0 * ve + ee) == lambda * vv + lambda * ee
    ensures lambda >= 0.0 && ee >= 0.0 ==> lambda * ee >= 0.0
  {
  }

  /** At a solution the samples sent back along the error are the penalty, entry by entry. */
  lemma BalancedEntry(x: Matrix, y: Vec, n: nat, d: nat, lambda: real, v: Vec, i: nat)
    requires Normal(x, y, n, d, lambda, v) && i < d
    ensures Back(x, n, Residual(x, y, d, v))(i) == -lambda * v(i)
  {
    hide Predict, Back;
    BackMinus(x, n, Predict(x, d, v), y, Residual(x, y, d, v));
    assert NormalSide(x, n, d, lambda, v, i) == Back(x, n, y)(i);
    NegativeProduct(lambda, v(i));
  }

  /** At a solution the error is orthogonal to every prediction, up to the penalty. */
  lemma CrossTerm(x: Matrix, y: Vec, n: nat, d: nat, lambda: real, v: Vec, e: Vec)
    requires Normal(x, y, n, d, lambda, v)
    ensures Inner(Residual(x, y, d, v), Predict(x, d, e), n) + lambda * Inner(v, e, d) == 0.0
  {
    hide Inner, Predict, Back, Residual, Normal, NormalSide;
    var err := Residual(x, y, d, v);
    var balance := (i: nat) => -lambda * v(i);
    Adjoint(x, n, d, err, e);
    InnerScale(e, v, -lambda, balance, d);
    forall i: nat | i < d ensures Back(x, n, err)(i) == balance(i) {
      BalancedEntry(x, y, n, d, lambda, v, i);
    }
    InnerSame(e, Back(x, n, err), balance, d);
    InnerComm(e, v, d);
    NegativeProduct(lambda, Inner(v, e, d));
  }

  lemma NegativeProduct(a: real, b: real)
    ensures -a * b == -(a * b)
  {
  }

  lemma BackMinus(x: Matrix, n: nat, p: Vec, y: Vec, e: Vec)
    requires forall k: nat :: e(k) == p(k) - y(k)
    ensures forall i: nat :: Back(x, n, p)(i) == Back(x, n, e)(i) + Back(x, n, y)(i)
  {
    forall i: nat ensures Back(x, n, p)(i) == Back(x, n, e)(i) + Back(x, n, y)(i) {
      forall k: nat | k < n ensures Times(x(k, i), p(k)) == Times(x(k, i), e(k)) + Times(x(k, i), y(k)) {
        assert p(k) == e(k) + y(k);
      }
      SigmaAdd((k: nat) => Times(x(k, i), e(k)), (k: nat) => Times(x(k, i), y(k)),
               (k: nat) => Times(x(k, i), p(k)), n);
    }
  }

  // ---------------------------------------------------------------- the penalty keeps the system solvable

  /** v . (X'X + lambda I) v = |X v|^2 + lambda |v|^2 */
  lemma Energy(x: Matrix, n: nat, d: nat, lambda: real, v: Vec, mv: Vec)
    requires forall i: nat :: i < d ==> mv(i) == NormalSide(x, n, d, lambda, v, i)
    ensures Inner(v, mv, d) == Inner(Predict(x, d, v), Predict(x, d, v), n) + lambda * Inner(v, v, d)
  {
    hide Inner, Predict;
    var p := Predict(x, d, v);
    var scaled := (i: nat) => lambda * v(i);
    Adjoint(x, n, d, p, v);
    InnerAdd(v, Back(x, n, p), scaled, mv, d);
    InnerScale(v, v, lambda, scaled, d);
  }

  /** If all entries of mv are within t, v . mv <= t (|v|^2 + d) / 2. */
  lemma SmallEnergy(v: Vec, mv: Vec, d: nat, t: real)
    requires t >= 0.0 && forall i: nat :: i < d ==> -t <= mv(i) <= t
    ensures 2.0 * Inner(v, mv, d) <= t * (Inner(v, v, d) + d as real)
  {
    hide Sigma, Times;
    var shifted := (i: nat) => Times(v(i), v(i)) + 1.0;
    var bound := (i: nat) => Times(t, shifted(i));
    var twice := (i: nat) => 2.0 * Times(v(i), mv(i));
    forall i: nat | i < d ensures twice(i) <= bound(i) {
      SmallProduct(v(i), mv(i), t);
    }
    SigmaOrder(twice, bound, d);
    SigmaScale(2.0, (i: nat) => Times(v(i), mv(i)), twice, d);
    ScaleSum(t, shifted, bound, d);
    SigmaAdd((i: nat) => Times(v(i), v(i)), (i: nat) => 1.0, shifted, d);
    SigmaConst(1.0, (i: nat) => 1.0, d);
  }

  lemma SmallProduct(a: real, b: real, t: real)
    requires -t <= b <= t
    ensures 2.0 * Times(a, b) <= Times(t, Times(a, a) + 1.0)
  {
    // t (a^2 + 1) - 2ab = (t - b)(a + 1)^2 / 2 + (t + b)(a - 1)^2 / 2
    var p, q := a + 1.0, a - 1.0;
    assert p * p >= 0.0 && q * q >= 0.0;
    assert (t - b) * (p * p) >= 0.0 && (t + b) * (q * q) >= 0.0;
    assert (t - b) * (p * p) + (t + b) * (q * q) == 2.0 * (t * (a * a + 1.0)) - 4.0 * (a * b) by {
      assert p * p == a * a + 2.0 * a + 1.0 && q * q == a * a - 2.0 * a + 1.0;
      Expand(t, b, a, a * a);
    }
  }

  lemma Expand(t: real, b: real, a: real, s: real)
    ensures (t - b) * (s + 2.0 * a + 1.0) + (t + b) * (s - 2.0 * a + 1.0) == 2.0 * (t * (s + 1.0)) - 4.0 * (a * b)
  {
  }

  lemma {:induction false} UnitEntryInSquare(v: Vec, d: nat, c: nat)
    requires c < d && v(c) == 1.0
    ensures Inner(v, v, d) >= 1.0
  {
    if c == d - 1 {
      SquarePositive(v, d - 1);
    } else {
      UnitEntryInSquare(v, d - 1, c);
      assert Times(v(d - 1), v(d - 1)) >= 0.0;
    }
  }

  /** v . mv is too large for all entries of mv to be within t. */
  lemma EnergyExceeds(x: Matrix, n: nat, d: nat, lambda: real, v: Vec, mv: Vec, c: nat, t: real, tiny: real)
    requires lambda >= d as real * tiny
    requires forall i: nat :: i < d ==> mv(i) == NormalSide(x, n, d, lambda, v, i)
    requires c < d && v(c) == 1.0 && 0.0 <= t < tiny
    ensures 2.0 * Inner(v, mv, d) > t * (Inner(v, v, d) + d as real)
  {
    hide Inner, Predict, NormalSide;
    Energy(x, n, d, lambda, v, mv);
    var p := Predict(x, d, v);
    SquarePositive(p, n);
    UnitEntryInSquare(v, d, c);
    KernelArithmetic(lambda, d as real, t, tiny, Inner(v, v, d));
    AddedEnergy(Inner(v, mv, d), Inner(p, p, n), lambda * Inner(v, v, d), t * (Inner(v, v, d) + d as real));
  }

  lemma AddedEnergy(total: real, predicted: real, penalty: real, bound: real)
    requires total == predicted + penalty && predicted >= 0.0 && 2.0 * penalty > bound
    ensures 2.0 * total > bound
  {
  }

  /** With a penalty of at least d times the smallest accepted pivot, no vector is nearly in the kernel. */
  lemma PenaltyExcludesKernel(x: Matrix, n: nat, d: nat, lambda: real, v: Vec, mv: Vec, c: nat, t: real)
    requires lambda >= d as real * TINY
    requires forall i: nat :: i < d ==> mv(i) == NormalSide(x, n, d, lambda, v, i)
    requires c < d && v(c) == 1.0 && 0.0 <= t < TINY
    ensures exists i: nat :: i < d && !(-t <= mv(i) <= t)
  {
    hide Inner, NormalSide;
    EnergyExceeds(x, n, d, lambda, v, mv, c, t, TINY);
    if forall i: nat :: i < d ==> -t <= mv(i) <= t {
      SmallEnergy(v, mv, d, t);
    }
  }

  // ---------------------------------------------------------------- which systems have a kernel

  ghost predicate HasUnit(v: Vec, d: nat) { exists c: nat :: c < d && v(c) == 1.0 }

  /** A vector with a unit entry that X'X + lambda I sends into [-t, t]. */
  ghost predicate NearZero(x: Matrix, n: nat, d: nat, lambda: real, v: Vec, t: real) {
    HasUnit(v, d) && forall i: nat :: i < d ==> -t <= NormalSide(x, n, d, lambda, v, i) <= t
  }

  lemma {:induction false} ZeroSquares(v: Vec, n: nat)
    requires Inner(v, v, n) == 0.0
    ensures forall k: nat :: k < n ==> v(k) == 0.0
  {
    hide Times, Inner;
    if n > 0 {
      LastSquare(v, n);
      SquarePositive(v, n - 1);
      SquareZero(v(n - 1));
      ZeroSquares(v, n - 1);
    }
  }

  lemma LastSquare(v: Vec, n: nat)
    requires n > 0
    ensures Inner(v, v, n) == Inner(v, v, n - 1) + Times(v(n - 1), v(n - 1))
  {
    hide Times;
  }

  lemma SquareZero(y: real)
    ensures Times(y, y) >= 0.0 && (Times(y, y) == 0.0 ==> y == 0.0)
  {
    TimesLaws(y, y, 0.0);
    if y != 0.0 {
      var square := y * y;
      assert square / y == y;
      assert square != 0.0;
    }
  }

  lemma InnerIsBack(x: Matrix, n: nat, i: nat, p: Vec)
    ensures Inner((k: nat) => x(k, i), p, n) == Back(x, n, p)(i)
  {
    SigmaSame((k: nat) => Times(((q: nat) => x(q, i))(k), p(k)), (k: nat) => Times(x(k, i), p(k)), n);
  }

  lemma InnerZero(u: Vec, v: Vec, n: nat)
    requires forall k: nat :: k < n ==> v(k) == 0.0
    ensures Inner(u, v, n) == 0.0
  {
    forall k: nat | k < n ensures Times(u(k), v(k)) == 0.0 {
      assert u(k) * 0.0 == 0.0;
    }
    SigmaConst(0.0, (k: nat) => Times(u(k), v(k)), n);
  }

  /** Where X'X + lambda I vanishes on v, so do the predictions of v, and the penalty is zero. */
  lemma KernelPredictsNothing(x: Matrix, n: nat, d: nat, lambda: real, v: Vec)
    requires lambda >= 0.0 && NearZero(x, n, d, lambda, v, 0.0)
    ensures lambda == 0.0 && forall k: nat :: k < n ==> Predict(x, d, v)(k) == 0.0
  {
    hide Predict, NormalSide, Inner;
    var mv := (i: nat) => NormalSide(x, n, d, lambda, v, i);
    var p := Predict(x, d, v);
    Energy(x, n, d, lambda, v, mv);
    InnerZero(v, mv, d);
    SquarePositive(p, n);
    var c: nat :| c < d && v(c) == 1.0;
    UnitEntryInSquare(v, d, c);
    NoEnergy(Inner(p, p, n), lambda, Inner(v, v, d));
    ZeroSquares(p, n);
  }

  lemma NoEnergy(e: real, lambda: real, s: real)
    requires e >= 0.0 && lambda >= 0.0 && s >= 1.0 && e + lambda * s == 0.0
    ensures e == 0.0 && lambda == 0.0
  {
    if lambda > 0.0 {
      MulOrder(1.0, s, lambda);
    }
  }

  /** The system of a head is singular exactly when the penalty is zero and the columns of the samples are dependent:
      some vector with a unit entry predicts zero for every sample. */
  lemma SingularMeans(x: Matrix, n: nat, d: nat, lambda: real)
    requires lambda >= 0.0
    ensures (exists v: Vec :: NearZero(x, n, d, lambda, v, 0.0)) <==>
            lambda == 0.0 && exists v: Vec :: HasUnit(v, d) && forall k: nat :: k < n ==> Predict(x, d, v)(k) == 0.0
  {
    hide Predict, NormalSide, HasUnit, NearZero;
    if v: Vec :| NearZero(x, n, d, lambda, v, 0.0) {
      KernelPredictsNothing(x, n, d, lambda, v);
      NearZeroUnit(x, n, d, lambda, v);
    }
    if lambda == 0.0 {
      forall v: Vec | HasUnit(v, d) && forall k: nat :: k < n ==> Predict(x, d, v)(k) == 0.0
        ensures NearZero(x, n, d, lambda, v, 0.0)
      {
        PredictsNothing(x, n, d, v);
      }
    }
  }

  lemma NearZeroUnit(x: Matrix, n: nat, d: nat, lambda: real, v: Vec)
    requires NearZero(x, n, d, lambda, v, 0.0)
    ensures HasUnit(v, d)
  {
  }

  lemma PredictsNothing(x: Matrix, n: nat, d: nat, v: Vec)
    requires HasUnit(v, d) && forall k: nat :: k < n ==> Predict(x, d, v)(k) == 0.0
    ensures NearZero(x, n, d, 0.0, v, 0.0)
  {
    hide Predict, Back, Inner;
    forall i: nat | i < d ensures NormalSide(x, n, d, 0.0, v, i) == 0.0 {
      InnerZero((k: nat) => x(k, i), Predict(x, d, v), n);
      InnerIsBack(x, n, i, Predict(x, d, v));
      assert 0.0 * v(i) == 0.0;
    }
  }

  lemma KernelArithmetic(lambda: real, d: real, t: real, tiny: real, s: real)
    requires s >= 1.0 && d >= 1.0 && 0.0 <= t < tiny && lambda >= d * tiny
    ensures 2.0 * (lambda * s) > t * (s + d)
  {
    MulOrder(d * tiny, lambda, s);
    TimesLaws(tiny, d, s);
    var ds := d * s;
    assert tiny * ds <= lambda * s;
    MulOrder(1.0, d, s);
    MulOrder(1.0, s, d);
    MulOrder(s + d, 2.0 * ds, tiny);
    MulOrder(t, tiny, s + d);
    assert t * (s + d) < tiny * (s + d) <= 2.0 * (tiny * ds);
  }

  lemma MulOrder(a: real, b: real, c: real)
    requires a <= b && c > 0.0
    ensures a * c <= b * c && (a < b ==> a * c < b * c)
  {
  }
}
