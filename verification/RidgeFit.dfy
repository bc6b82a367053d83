/**
 The host-side fit: for every head, build [X'X + lambda I | X'Y] in a row-major scratch matrix, solve
 it in place, and copy the right block into the head's rows of the stacked result.
 */
module RidgeFit {
  import opened Algebra
  import opened Bits
  import opened GaussJordan
  import opened Reals
  import opened Ridge

  /** A row-major buffer with w columns as a matrix. */
  function At(s: seq<real>, w: nat): Matrix {
    (k: nat, i: nat) => if Base(k, w) + i < |s| then s[Base(k, w) + i] else 0.0
  }

  function GramEntry(x: Matrix, n: nat, i: nat, j: nat): real {
    Back(x, n, ColumnOf(x, j))(i)
  }

  /** What the three building loops leave at row i, column c. */
  function Augmented(x: Matrix, y: Matrix, n: nat, d: nat, lambda: real, i: nat, c: nat): real {
    if c < d then GramEntry(x, n, i, c) + (if i == c then lambda else 0.0)
    else Back(x, n, ColumnOf(y, c - d))(i)
  }

  ghost predicate IsAugmented(g: Grid, x: Matrix, y: Matrix, n: nat, d: nat, m: nat, lambda: real) {
    Shape(g, d, d + m) &&
    forall i: nat, c: nat :: i < d && c < d + m ==> g[i][c] == Augmented(x, y, n, d, lambda, i, c)
  }

  // ---------------------------------------------------------------- building the system

  method SetCell(a: array<real>, d: nat, w: nat, i: nat, j: nat, v: real)
    requires a.Length == Base(d, w) && i < d && j < w
    requires Shape(GridOf(a[..], d, w), d, w)
    modifies a
    ensures Shape(GridOf(a[..], d, w), d, w)
    ensures GridOf(a[..], d, w) == GridOf(old(a[..]), d, w)[i := GridOf(old(a[..]), d, w)[i][j := v]]
  {
    hide Base;
    ghost var s := a[..];
    RowBase(d, w, i);
    a[Base(i, w) + j] := v;
    RowsChanged(s, a[..], d, w, i, i);
    assert GaussJordan.Row(a[..], i, w) == GaussJordan.Row(s, i, w)[j := v];
  }

  /** The sum over the samples of column i of x times column j of y. */
  method ColumnProduct(xs: seq<real>, ys: seq<real>, n: nat, d: nat, m: nat, i: nat, j: nat) returns (s: real)
    requires |xs| == Base(n, d) && |ys| == Base(n, m) && i < d && j < m
    ensures s == Back(At(xs, d), n, ColumnOf(At(ys, m), j))(i)
  {
    hide Base;
    s := 0.0;
    ghost var x, u := At(xs, d), ColumnOf(At(ys, m), j);
    ghost var f := (k: nat) => Times(x(k, i), u(k));
    for k := 0 to n
      invariant s == Sigma(f, k)
    {
      RowBase(n, d, k);
      RowBase(n, m, k);
      assert x(k, i) == xs[Base(k, d) + i];
      assert u(k) == ys[Base(k, m) + j];
      assert Sigma(f, k + 1) == Sigma(f, k) + f(k);
      s := s + xs[Base(k, d) + i] * ys[Base(k, m) + j];
    }
    SigmaSame(f, (k: nat) => Times(x(k, i), u(k)), n);
  }

  /** Row i: the Gram entries, then the right-hand side, then the penalty on the diagonal. */
  ghost predicate RowIs(row: seq<real>, x: Matrix, y: Matrix, n: nat, d: nat, i: nat, lambda: real, filled: nat) {
    forall c: nat :: c < filled && c < |row| ==> row[c] == Augmented(x, y, n, d, lambda, i, c)
  }

  ghost predicate RowsAre(g: Grid, x: Matrix, y: Matrix, n: nat, d: nat, lambda: real, filled: nat) {
    forall i: nat :: i < |g| ==> RowIs(g[i], x, y, n, d, i, lambda, filled)
  }

  /** Rows before i at one stage, rows after i at another; row i is not mentioned. */
  ghost predicate RowsSplit(g: Grid, x: Matrix, y: Matrix, n: nat, d: nat, i: nat,
                            lambda: real, filled: nat, lambda': real, filled': nat) {
    forall q: nat :: q < |g| && q != i ==>
      RowIs(g[q], x, y, n, d, q, if q < i then lambda else lambda', if q < i then filled else filled')
  }

  method FillGram(a: array<real>, xs: seq<real>, ys: seq<real>, n: nat, d: nat, m: nat)
    requires a.Length == Base(d, d + m) && |xs| == Base(n, d)
    requires Shape(GridOf(a[..], d, d + m), d, d + m)
    modifies a
    ensures Shape(GridOf(a[..], d, d + m), d, d + m)
    ensures RowsAre(GridOf(a[..], d, d + m), At(xs, d), At(ys, m), n, d, 0.0, d)
  {
    hide Base, GridOf, Back, At;
    ghost var x, y := At(xs, d), At(ys, m);
    for i := 0 to d
      invariant Shape(GridOf(a[..], d, d + m), d, d + m)
      invariant RowsSplit(GridOf(a[..], d, d + m), x, y, n, d, i, 0.0, d, 0.0, 0)
    {
      for j := 0 to d
        invariant Shape(GridOf(a[..], d, d + m), d, d + m)
        invariant RowsSplit(GridOf(a[..], d, d + m), x, y, n, d, i, 0.0, d, 0.0, 0)
        invariant RowIs(GridOf(a[..], d, d + m)[i], x, y, n, d, i, 0.0, j)
      {
        var s := ColumnProduct(xs, xs, n, d, d, i, j);
        SetCell(a, d, d + m, i, j, s);
      }
    }
  }

  method FillTarget(a: array<real>, xs: seq<real>, ys: seq<real>, n: nat, d: nat, m: nat)
    requires a.Length == Base(d, d + m) && |xs| == Base(n, d) && |ys| == Base(n, m)
    requires Shape(GridOf(a[..], d, d + m), d, d + m)
    requires RowsAre(GridOf(a[..], d, d + m), At(xs, d), At(ys, m), n, d, 0.0, d)
    modifies a
    ensures Shape(GridOf(a[..], d, d + m), d, d + m)
    ensures RowsAre(GridOf(a[..], d, d + m), At(xs, d), At(ys, m), n, d, 0.0, d + m)
  {
    hide Base, GridOf, Back, At;
    ghost var x, y := At(xs, d), At(ys, m);
    for i := 0 to d
      invariant Shape(GridOf(a[..], d, d + m), d, d + m)
      invariant RowsSplit(GridOf(a[..], d, d + m), x, y, n, d, i, 0.0, d + m, 0.0, d)
      invariant i < d ==> RowIs(GridOf(a[..], d, d + m)[i], x, y, n, d, i, 0.0, d)
    {
      for j := 0 to m
        invariant Shape(GridOf(a[..], d, d + m), d, d + m)
        invariant RowsSplit(GridOf(a[..], d, d + m), x, y, n, d, i, 0.0, d + m, 0.0, d)
        invariant RowIs(GridOf(a[..], d, d + m)[i], x, y, n, d, i, 0.0, d + j)
      {
        var s := ColumnProduct(xs, ys, n, d, m, i, j);
        SetCell(a, d, d + m, i, d + j, s);
      }
    }
  }

  method AddPenalty(a: array<real>, ghost x: Matrix, ghost y: Matrix, ghost n: nat, d: nat, m: nat, lambda: real)
    requires a.Length == Base(d, d + m)
    requires Shape(GridOf(a[..], d, d + m), d, d + m)
    requires RowsAre(GridOf(a[..], d, d + m), x, y, n, d, 0.0, d + m)
    modifies a
    ensures IsAugmented(GridOf(a[..], d, d + m), x, y, n, d, m, lambda)
  {
    hide Base, GridOf, Back;
    for i := 0 to d
      invariant Shape(GridOf(a[..], d, d + m), d, d + m)
      invariant RowsSplit(GridOf(a[..], d, d + m), x, y, n, d, i, lambda, d + m, 0.0, d + m)
      invariant i < d ==> RowIs(GridOf(a[..], d, d + m)[i], x, y, n, d, i, 0.0, d + m)
    {
      GridShape(a[..], d, d + m);
      var v := a[Base(i, d + m) + i];
      assert v == GridOf(a[..], d, d + m)[i][i];
      SetCell(a, d, d + m, i, i, v + lambda);
    }
  }

  // ---------------------------------------------------------------- one head

  /** W solves the ridge problem of one head: its columns satisfy the normal equations. */
  ghost predicate IsRidge(x: Matrix, y: Matrix, n: nat, d: nat, m: nat, lambda: real, w: Matrix) {
    forall j: nat :: j < m ==> Normal(x, ColumnOf(y, j), n, d, lambda, ColumnOf(w, j))
  }

  /** Row i of the left block applied to v. */
  lemma GramApplied(g: Grid, x: Matrix, y: Matrix, n: nat, d: nat, m: nat, lambda: real, i: nat, v: Vec)
    requires IsAugmented(g, x, y, n, d, m, lambda) && i < d
    ensures Eval(g[i][..d], v) == NormalSide(x, n, d, lambda, v, i)
  {
    hide Inner;
    var u := (k: nat) => x(k, i);
    var b := Back(x, n, u);
    Adjoint(x, n, d, u, v);
    InnerIsBack(x, n, i, Predict(x, d, v));
    forall c: nat | c < d ensures g[i][c] == b(c) + if i == c then lambda else 0.0 {
      SymmetricGram(x, n, i, c);
    }
    EvalIsInner(g[i], d, i, lambda, b, v);
  }

  lemma SymmetricGram(x: Matrix, n: nat, i: nat, c: nat)
    ensures GramEntry(x, n, i, c) == Back(x, n, (k: nat) => x(k, i))(c)
  {
    forall k: nat | k < n ensures Times(x(k, i), x(k, c)) == Times(x(k, c), x(k, i)) {
      TimesLaws(x(k, i), x(k, c), 0.0);
    }
    SigmaSame((k: nat) => Times(x(k, i), ColumnOf(x, c)(k)),
              (k: nat) => Times(x(k, c), ((q: nat) => x(q, i))(k)), n);
  }

  lemma {:induction false} EvalIsInner(row: seq<real>, n: nat, i: nat, lambda: real, b: Vec, v: Vec)
    requires n <= |row| && forall c: nat :: c < n ==> row[c] == b(c) + if i == c then lambda else 0.0
    ensures Eval(row[..n], v) == Inner(v, b, n) + if i < n then lambda * v(i) else 0.0
  {
    if n > 0 {
      EvalIsInner(row, n - 1, i, lambda, b, v);
      assert row[..n][..n - 1] == row[..n - 1];
      InnerLast(v, b, n);
      var last := n - 1;
      assert row[last] * v(last) == v(last) * b(last) + if i == last then lambda * v(last) else 0.0;
    }
  }

  lemma InnerLast(v: Vec, b: Vec, n: nat)
    requires n > 0
    ensures Inner(v, b, n) == Inner(v, b, n - 1) + v(n - 1) * b(n - 1)
  {
  }

  /** The solutions of the built system are exactly the ridge solutions. */
  lemma SolutionIsRidge(g: Grid, x: Matrix, y: Matrix, n: nat, d: nat, m: nat, lambda: real, w: Matrix)
    requires IsAugmented(g, x, y, n, d, m, lambda)
    ensures IsSolution(g, d, m, w) <==> IsRidge(x, y, n, d, m, lambda, w)
  {
    hide Back, Predict, Eval;
    forall i: nat, j: nat | i < d && j < m
      ensures Eval(g[i][..d], ColumnOf(w, j)) == NormalSide(x, n, d, lambda, ColumnOf(w, j), i)
      ensures g[i][d + j] == Back(x, n, ColumnOf(y, j))(i)
    {
      var c := d + j;
      assert g[i][c] == Augmented(x, y, n, d, lambda, i, c) && c - d == j;
      GramApplied(g, x, y, n, d, m, lambda, i, ColumnOf(w, j));
    }
    if IsRidge(x, y, n, d, m, lambda, w) {
      forall i: nat, j: nat | i < d && j < m ensures Eval(g[i][..d], ColumnOf(w, j)) == g[i][d + j] {
        assert Normal(x, ColumnOf(y, j), n, d, lambda, ColumnOf(w, j));
      }
    }
    if IsSolution(g, d, m, w) {
      forall j: nat, i: nat | i < d && j < m
        ensures NormalSide(x, n, d, lambda, ColumnOf(w, j), i) == Back(x, n, ColumnOf(y, j))(i)
      {
        assert Eval(g[i][..d], ColumnOf(w, j)) == g[i][d + j];
      }
    }
  }

  /** With a large enough penalty the built system has no near-kernel below the smallest accepted pivot. */
  lemma PenaltySolvable(g: Grid, x: Matrix, y: Matrix, n: nat, d: nat, m: nat, lambda: real, v: Vec, t: real)
    requires IsAugmented(g, x, y, n, d, m, lambda) && lambda >= d as real * TINY && 0.0 <= t < TINY
    ensures !NearKernel(g, d, v, t)
  {
    hide Eval, Back, Predict, IsAugmented;
    if NearKernel(g, d, v, t) {
      var c: nat :| c < d && v(c) == 1.0;
      var mv := (i: nat) => NormalSide(x, n, d, lambda, v, i);
      forall i: nat | i < d ensures -t <= mv(i) <= t {
        RowsApplied(g, x, y, n, d, m, lambda, v, i);
      }
      PenaltyExcludesKernel(x, n, d, lambda, v, mv, c, t);
    }
  }

  lemma RowsApplied(g: Grid, x: Matrix, y: Matrix, n: nat, d: nat, m: nat, lambda: real, v: Vec, i: nat)
    requires IsAugmented(g, x, y, n, d, m, lambda) && i < d
    requires forall k: nat :: k >= d ==> v(k) == 0.0
    ensures i < |g| && Eval(g[i], v) == NormalSide(x, n, d, lambda, v, i)
  {
    hide Eval, Back, Predict;
    GramApplied(g, x, y, n, d, m, lambda, i, v);
    EvalTail(g[i], d, d + m, v);
    assert g[i][..d + m] == g[i];
  }

  // ---------------------------------------------------------------- the smallest cases

  lemma SmallBuffers(a: real, b: real)
    ensures At([a, b], 1)(0, 0) == a && At([a, b], 1)(1, 0) == b
    ensures At([a, b], 2)(0, 0) == a && At([a, b], 2)(0, 1) == b
    ensures At([a], 1)(0, 0) == a
  {
    var s, t := [a, b], [a];
    assert Base(0, 1) == 0 && Base(1, 1) == 1 && Base(0, 2) == 0;
    assert s[0] == a && s[1] == b && t[0] == a;
  }

  lemma OneColumn(x: Matrix, y: Matrix, n: nat, d: nat, lambda: real, w: Matrix)
    ensures IsRidge(x, y, n, d, 1, lambda, w) <==> Normal(x, ColumnOf(y, 0), n, d, lambda, ColumnOf(w, 0))
  {
    hide Normal;
  }

  lemma FewEquations(x: Matrix, y: Vec, n: nat, lambda: real, v: Vec)
    ensures Normal(x, y, n, 1, lambda, v) <==> NormalSide(x, n, 1, lambda, v, 0) == Back(x, n, y)(0)
    ensures Normal(x, y, n, 2, lambda, v) <==>
            && NormalSide(x, n, 2, lambda, v, 0) == Back(x, n, y)(0)
            && NormalSide(x, n, 2, lambda, v, 1) == Back(x, n, y)(1)
  {
    hide NormalSide, Back;
  }

  /** Both sides of the one normal equation for two samples of one feature. */
  lemma TwoSampleSides(x: Matrix, y: Vec, lambda: real, v: Vec)
    ensures NormalSide(x, 2, 1, lambda, v, 0) ==
            Times(x(0, 0), Times(x(0, 0), v(0))) + Times(x(1, 0), Times(x(1, 0), v(0))) + Times(lambda, v(0))
    ensures Back(x, 2, y)(0) == Times(x(0, 0), y(0)) + Times(x(1, 0), y(1))
  {
    hide Sigma;
    SigmaFew((i: nat) => Times(x(0, i), v(i)));
    SigmaFew((i: nat) => Times(x(1, i), v(i)));
    SigmaFew((k: nat) => Times(x(k, 0), Predict(x, 1, v)(k)));
    SigmaFew((k: nat) => Times(x(k, 0), y(k)));
  }

  lemma TwoSampleEquation(x: Matrix, y: Matrix, lambda: real, w: Matrix)
    ensures IsRidge(x, y, 2, 1, 1, lambda, w) <==>
            Times(x(0, 0), Times(x(0, 0), w(0, 0))) + Times(x(1, 0), Times(x(1, 0), w(0, 0)))
              + Times(lambda, w(0, 0)) ==
            Times(x(0, 0), y(0, 0)) + Times(x(1, 0), y(1, 0))
  {
    hide Times, NormalSide, Back, Normal, IsRidge;
    TwoSampleSides(x, ColumnOf(y, 0), lambda, ColumnOf(w, 0));
    OneColumn(x, y, 2, 1, lambda, w);
    FewEquations(x, ColumnOf(y, 0), 2, lambda, ColumnOf(w, 0));
  }

  /** Two samples of one feature: what a ridge solution is, written out. */
  lemma TwoSamples(a: real, b: real, p: real, q: real, lambda: real, w: Matrix)
    ensures IsRidge(At([a, b], 1), At([p, q], 1), 2, 1, 1, lambda, w) <==>
            a * (a * w(0, 0)) + b * (b * w(0, 0)) + lambda * w(0, 0) == a * p + b * q
  {
    hide At, IsRidge;
    SmallBuffers(a, b);
    SmallBuffers(p, q);
    TwoSampleEquation(At([a, b], 1), At([p, q], 1), lambda, w);
  }

  /** Both sides of the two normal equations for one sample of two features. */
  lemma TwoFeatureSides(x: Matrix, y: Vec, lambda: real, v: Vec, i: nat)
    ensures NormalSide(x, 1, 2, lambda, v, i) ==
            Times(x(0, i), Times(x(0, 0), v(0)) + Times(x(0, 1), v(1))) + Times(lambda, v(i))
    ensures Back(x, 1, y)(i) == Times(x(0, i), y(0))
  {
    hide Sigma;
    SigmaFew((i: nat) => Times(x(0, i), v(i)));
    SigmaFew((k: nat) => Times(x(k, i), Predict(x, 2, v)(k)));
    SigmaFew((k: nat) => Times(x(k, i), y(k)));
  }

  lemma TwoFeatureEquations(x: Matrix, y: Matrix, lambda: real, w: Matrix)
    ensures var p := Times(x(0, 0), w(0, 0)) + Times(x(0, 1), w(1, 0));
            IsRidge(x, y, 1, 2, 1, lambda, w) <==>
            && Times(x(0, 0), p) + Times(lambda, w(0, 0)) == Times(x(0, 0), y(0, 0))
            && Times(x(0, 1), p) + Times(lambda, w(1, 0)) == Times(x(0, 1), y(0, 0))
  {
    hide Times, NormalSide, Back, Normal, IsRidge;
    TwoFeatureSides(x, ColumnOf(y, 0), lambda, ColumnOf(w, 0), 0);
    TwoFeatureSides(x, ColumnOf(y, 0), lambda, ColumnOf(w, 0), 1);
    OneColumn(x, y, 1, 2, lambda, w);
    FewEquations(x, ColumnOf(y, 0), 1, lambda, ColumnOf(w, 0));
  }

  /** One sample of two features, with the row-major order of the buffers. */
  lemma TwoFeatures(a: real, b: real, p: real, lambda: real, w: Matrix)
    ensures var u, v := w(0, 0), w(1, 0);
            IsRidge(At([a, b], 2), At([p], 1), 1, 2, 1, lambda, w) <==>
            && a * (a * u + b * v) + lambda * u == a * p
            && b * (a * u + b * v) + lambda * v == b * p
  {
    hide At, IsRidge;
    SmallBuffers(a, b);
    SmallBuffers(p, 0.0);
    TwoFeatureEquations(At([a, b], 2), At([p], 1), lambda, w);
  }

  // ---------------------------------------------------------------- which heads are refused

  /** Elimination gives up on the system built for these samples. */
  ghost predicate Refused(xs: seq<real>, ys: seq<real>, n: nat, d: nat, m: nat, lambda: real) {
    exists g: Grid :: IsAugmented(g, At(xs, d), At(ys, m), n, d, m, lambda) && Fails(g, d, d + m, 0, TINY)
  }

  /** There is only one such system. */
  lemma AugmentedUnique(g: Grid, g': Grid, x: Matrix, y: Matrix, n: nat, d: nat, m: nat, lambda: real)
    requires IsAugmented(g, x, y, n, d, m, lambda) && IsAugmented(g', x, y, n, d, m, lambda)
    ensures g == g'
  {
    hide Augmented;
    forall i: nat | i < d ensures g[i] == g'[i] {
      assert forall c: nat :: c < d + m ==> g[i][c] == Augmented(x, y, n, d, lambda, i, c) == g'[i][c];
    }
  }

  lemma RefusedIsFails(g: Grid, xs: seq<real>, ys: seq<real>, n: nat, d: nat, m: nat, lambda: real)
    requires IsAugmented(g, At(xs, d), At(ys, m), n, d, m, lambda)
    ensures Refused(xs, ys, n, d, m, lambda) <==> Fails(g, d, d + m, 0, TINY)
  {
    if Refused(xs, ys, n, d, m, lambda) {
      var g': Grid :| IsAugmented(g', At(xs, d), At(ys, m), n, d, m, lambda) && Fails(g', d, d + m, 0, TINY);
      hide IsAugmented, Fails, At;
      AugmentedUnique(g, g', At(xs, d), At(ys, m), n, d, m, lambda);
    }
  }

  /** A near-kernel of the built system is one of X'X + lambda I. */
  lemma NearKernelMeans(g: Grid, x: Matrix, y: Matrix, n: nat, d: nat, m: nat, lambda: real, v: Vec, t: real)
    requires IsAugmented(g, x, y, n, d, m, lambda)
    requires forall k: nat :: k >= d ==> v(k) == 0.0
    ensures NearKernel(g, d, v, t) <==> NearZero(x, n, d, lambda, v, t)
  {
    hide Eval, NormalSide;
    assert |g| == d;
    forall i: nat | i < d ensures Eval(g[i], v) == NormalSide(x, n, d, lambda, v, i) {
      RowsApplied(g, x, y, n, d, m, lambda, v, i);
    }
  }

  /** The same vector with nothing from d on. */
  function Trimmed(v: Vec, d: nat): Vec { (k: nat) => if k < d then v(k) else 0.0 }

  lemma TrimmedNearZero(x: Matrix, n: nat, d: nat, lambda: real, v: Vec, t: real)
    requires NearZero(x, n, d, lambda, v, t)
    ensures NearZero(x, n, d, lambda, Trimmed(v, d), t)
  {
    var u := Trimmed(v, d);
    forall k: nat ensures Predict(x, d, u)(k) == Predict(x, d, v)(k) {
      SigmaSame((i: nat) => Times(x(k, i), u(i)), (i: nat) => Times(x(k, i), v(i)), d);
    }
    forall i: nat | i < d ensures NormalSide(x, n, d, lambda, u, i) == NormalSide(x, n, d, lambda, v, i) {
      hide Predict;
      SigmaSame((k: nat) => Times(x(k, i), Predict(x, d, u)(k)), (k: nat) => Times(x(k, i), Predict(x, d, v)(k)), n);
    }
    hide NormalSide;
    var c: nat :| c < d && v(c) == 1.0;
    assert u(c) == 1.0;
  }

  /** What a refusal means for the samples: a vector with a unit entry that X'X + lambda I sends to within 1e-300 of
      zero exists; and every head whose X'X + lambda I has a kernel is refused. */
  lemma RefusedMeans(g: Grid, xs: seq<real>, ys: seq<real>, n: nat, d: nat, m: nat, lambda: real)
    returns (v: Vec, t: real)
    requires IsAugmented(g, At(xs, d), At(ys, m), n, d, m, lambda)
    ensures Refused(xs, ys, n, d, m, lambda) ==> 0.0 <= t < 1e-300 && NearZero(At(xs, d), n, d, lambda, v, t)
    ensures (exists u: Vec :: NearZero(At(xs, d), n, d, lambda, u, 0.0)) ==> Refused(xs, ys, n, d, m, lambda)
  {
    var x, y := At(xs, d), At(ys, m);
    RefusedIsFails(g, xs, ys, n, d, m, lambda);
    v, t := RefusalMeans(g, d, d + m);
    hide IsAugmented, Fails, NearZero, At, Refused;
    if Refused(xs, ys, n, d, m, lambda) {
      KernelTail(g, d, v, t);
      NearKernelMeans(g, x, y, n, d, m, lambda, v, t);
    }
    forall u: Vec | NearZero(x, n, d, lambda, u, 0.0) ensures Singular(g, d) {
      TrimmedNearZero(x, n, d, lambda, u, 0.0);
      NearKernelMeans(g, x, y, n, d, m, lambda, Trimmed(u, d), 0.0);
      assert NearKernel(g, d, Trimmed(u, d), 0.0);
    }
  }

  lemma KernelTail(g: Grid, d: nat, v: Vec, t: real)
    requires NearKernel(g, d, v, t)
    ensures forall k: nat :: k >= d ==> v(k) == 0.0
  {
  }

  /** One feature: a head is refused exactly when the sum of the squared samples plus the penalty is below 1e-300. */
  lemma OneFeatureRefused(g: Grid, xs: seq<real>, ys: seq<real>, n: nat, m: nat, lambda: real)
    requires IsAugmented(g, At(xs, 1), At(ys, m), n, 1, m, lambda)
    ensures var x := (k: nat) => At(xs, 1)(k, 0);
            Refused(xs, ys, n, 1, m, lambda) <==> -1e-300 < Inner(x, x, n) + lambda < 1e-300
  {
    RefusedIsFails(g, xs, ys, n, 1, m, lambda);
    DiagonalRefused(g, 1, 1 + m, 0);
    var x := (k: nat) => At(xs, 1)(k, 0);
    hide Fails, At;
    assert g[0][0] == Augmented(At(xs, 1), At(ys, m), n, 1, lambda, 0, 0);
    SigmaSame((k: nat) => Times(At(xs, 1)(k, 0), ColumnOf(At(xs, 1), 0)(k)), (k: nat) => Times(x(k), x(k)), n);
  }

  /** One head: build and solve. */
  method FitHead(a: array<real>, xs: seq<real>, ys: seq<real>, n: nat, d: nat, m: nat, lambda: real)
    returns (rc: int)
    requires a.Length == Base(d, d + m) && |xs| == Base(n, d) && |ys| == Base(n, m)
    modifies a
    ensures Shape(GridOf(a[..], d, d + m), d, d + m)
    ensures rc == 0 || rc == -1
    ensures rc == 0 ==> forall w: Matrix :: IsRidge(At(xs, d), At(ys, m), n, d, m, lambda, w) <==>
                                            Agrees(GridOf(a[..], d, d + m), 0, d, m, d, w)
    ensures rc == -1 <==> Refused(xs, ys, n, d, m, lambda)
    ensures rc == -1 ==> exists v: Vec, t: real :: 0.0 <= t < 1e-300 && NearZero(At(xs, d), n, d, lambda, v, t)
    ensures (exists v: Vec :: NearZero(At(xs, d), n, d, lambda, v, 0.0)) ==> rc == -1
    ensures lambda >= d as real * TINY ==> rc == 0
  {
    hide Base, GridOf, At, RowsAre, IsAugmented, IsRidge, IsSolution, Reduces, NearKernel, Refused, NearZero, Fails;
    GridShape(a[..], d, d + m);
    FillGram(a, xs, ys, n, d, m);
    FillTarget(a, xs, ys, n, d, m);
    ghost var x, y := At(xs, d), At(ys, m);
    AddPenalty(a, x, y, n, d, m, lambda);
    ghost var g0 := GridOf(a[..], d, d + m);
    ghost var v, t;
    rc, v, t := SolveLinear(a, d, m);
    RefusedIsFails(g0, xs, ys, n, d, m, lambda);
    ghost var u, s := RefusedMeans(g0, xs, ys, n, d, m, lambda);
    if rc == 0 {
      ghost var g := GridOf(a[..], d, d + m);
      forall w: Matrix ensures IsRidge(x, y, n, d, m, lambda, w) <==> Agrees(g, 0, d, m, d, w) {
        SolutionIsRidge(g0, x, y, n, d, m, lambda, w);
        FinishedSolves(g0, g, d, m, w);
      }
    } else if lambda >= d as real * TINY {
      PenaltySolvable(g0, x, y, n, d, m, lambda, v, t);
    }
  }

  /** Entry (i, j) of the block of g that starts at row `top` and column `left`. */
  function BlockEntry(g: Grid, top: nat, left: nat, i: nat, j: nat): real {
    if top + i < |g| && left + j < |g[top + i]| then g[top + i][left + j] else 0.0
  }

  /** w is the d x m block of g that starts there. */
  ghost predicate Agrees(g: Grid, top: nat, d: nat, m: nat, left: nat, w: Matrix) {
    forall i: nat, j: nat :: i < d && j < m ==> w(i, j) == BlockEntry(g, top, left, i, j)
  }

  // ---------------------------------------------------------------- all heads

  /** The rows of head h in the stacked result are the one ridge solution of that head. */
  ghost predicate HeadFitted(g: Grid, xs: seq<real>, ys: seq<real>, h: nat, n: nat, d: nat, m: nat, lambda: real)
  {
    forall w: Matrix :: IsRidge(At(xs, d), At(ys, m), n, d, m, lambda, w) <==> Agrees(g, Base(h, d), d, m, 0, w)
  }

  ghost predicate RowCopied(g: Grid, out: Grid, top: nat, d: nat, i: nat, m: nat) {
    forall c: nat :: c < m ==> BlockEntry(out, top, 0, i, c) == BlockEntry(g, 0, d, i, c)
  }

  ghost predicate RowsCopied(g: Grid, out: Grid, top: nat, d: nat, rows: nat, m: nat) {
    forall q: nat :: q < rows ==> RowCopied(g, out, top, d, q, m)
  }

  lemma CellCopied(g: Grid, out: Grid, top: nat, d: nat, i: nat, j: nat, m: nat)
    requires top + i < |out| && j < |out[top + i]|
    requires RowsCopied(g, out, top, d, i, m) && RowCopied(g, out, top, d, i, j)
    ensures var out' := out[top + i := out[top + i][j := BlockEntry(g, 0, d, i, j)]];
            RowsCopied(g, out', top, d, i, m) && RowCopied(g, out', top, d, i, j + 1)
  {
    var out' := out[top + i := out[top + i][j := BlockEntry(g, 0, d, i, j)]];
    forall q: nat | q < i ensures RowCopied(g, out', top, d, q, m) {
      assert RowCopied(g, out, top, d, q, m);
      assert forall c: nat :: BlockEntry(out', top, 0, q, c) == BlockEntry(out, top, 0, q, c);
    }
  }

  lemma CopiedAgrees(g: Grid, out: Grid, top: nat, d: nat, m: nat, w: Matrix)
    requires RowsCopied(g, out, top, d, d, m)
    ensures Agrees(g, 0, d, m, d, w) <==> Agrees(out, top, d, m, 0, w)
  {
    hide BlockEntry;
    forall i: nat, c: nat | i < d && c < m ensures BlockEntry(out, top, 0, i, c) == BlockEntry(g, 0, d, i, c) {
      assert RowCopied(g, out, top, d, i, m);
    }
  }

  /** Copy the right block of the scratch matrix into the rows of head h. */
  method CopyBlock(a: array<real>, out: array<real>, heads: nat, h: nat, d: nat, m: nat)
    requires a != out && a.Length == Base(d, d + m) && h < heads && out.Length == Base(Base(heads, d), m)
    requires Shape(GridOf(a[..], d, d + m), d, d + m)
    requires Shape(GridOf(out[..], Base(heads, d), m), Base(heads, d), m)
    modifies out
    ensures Base(h, d) + d <= Base(heads, d)
    ensures Shape(GridOf(out[..], Base(heads, d), m), Base(heads, d), m)
    ensures GridOf(out[..], Base(heads, d), m)[..Base(h, d)] == GridOf(old(out[..]), Base(heads, d), m)[..Base(h, d)]
    ensures RowsCopied(GridOf(a[..], d, d + m), GridOf(out[..], Base(heads, d), m), Base(h, d), d, d, m)
  {
    hide Base, GridOf;
    RowBase(heads, d, h);
    ghost var g, was := GridOf(a[..], d, d + m), GridOf(out[..], Base(heads, d), m);
    var rows, top := Base(heads, d), Base(h, d);
    for i := 0 to d
      invariant Shape(GridOf(out[..], rows, m), rows, m)
      invariant GridOf(out[..], rows, m)[..top] == was[..top]
      invariant RowsCopied(g, GridOf(out[..], rows, m), top, d, i, m)
    {
      for j := 0 to m
        invariant Shape(GridOf(out[..], rows, m), rows, m)
        invariant GridOf(out[..], rows, m)[..top] == was[..top]
        invariant RowsCopied(g, GridOf(out[..], rows, m), top, d, i, m)
        invariant RowCopied(g, GridOf(out[..], rows, m), top, d, i, j)
      {
        GridShape(a[..], d, d + m);
        CellCopied(g, GridOf(out[..], rows, m), top, d, i, j, m);
        SetCell(out, rows, m, top + i, j, a[Base(i, d + m) + d + j]);
      }
    }
  }

  /** Heads whose rows are not touched stay fitted. */
  lemma FittedStays(g: Grid, g': Grid, xs: seq<real>, ys: seq<real>, h: nat, n: nat, d: nat, m: nat, lambda: real,
                    top: nat)
    requires HeadFitted(g, xs, ys, h, n, d, m, lambda)
    requires Base(h, d) + d <= top <= |g| && top <= |g'| && g'[..top] == g[..top]
    ensures HeadFitted(g', xs, ys, h, n, d, m, lambda)
  {
    hide Base, IsRidge, At;
    forall i: nat, j: nat | i < d && j < m
      ensures BlockEntry(g', Base(h, d), 0, i, j) == BlockEntry(g, Base(h, d), 0, i, j)
    {
      assert g'[..top][Base(h, d) + i] == g[..top][Base(h, d) + i];
    }
    forall w: Matrix ensures Agrees(g, Base(h, d), d, m, 0, w) <==> Agrees(g', Base(h, d), d, m, 0, w) {
      hide BlockEntry;
    }
  }

  /** Fit every head into the stacked buffer, stopping at the first system that is refused; no samples is an error. */
  method Fit(xs: seq<seq<real>>, ys: seq<seq<real>>, heads: nat, n: nat, d: nat, m: nat, lambda: real)
    returns (rc: int, out: array<real>)
    requires |xs| == heads && |ys| == heads
    requires forall h: nat :: h < heads ==> |xs[h]| == Base(n, d) && |ys[h]| == Base(n, m)
    ensures rc == 0 || rc == -1
    ensures rc == 0 <==> n > 0 && forall h: nat :: h < heads ==> !Refused(xs[h], ys[h], n, d, m, lambda)
    ensures rc == 0 ==> out.Length == Base(Base(heads, d), m) &&
                        forall h: nat :: h < heads ==>
                          HeadFitted(GridOf(out[..], Base(heads, d), m), xs[h], ys[h], h, n, d, m, lambda)
    ensures n > 0 && lambda >= d as real * TINY ==> rc == 0
  {
    hide Base, GridOf, HeadFitted, Agrees, IsRidge, At, RowsCopied, Refused, NearZero;
    if n == 0 {
      out := new real[0];
      return -1, out;
    }
    var aug := new real[Base(d, d + m)](_ => 0.0);
    out := new real[Base(Base(heads, d), m)](_ => 0.0);
    var rows := Base(heads, d);
    GridShape(out[..], rows, m);
    rc := 0;
    for h := 0 to heads
      invariant rc == 0 && out.Length == Base(rows, m) && fresh(out) && fresh(aug) && aug != out
      invariant Shape(GridOf(out[..], rows, m), rows, m)
      invariant forall q: nat :: q < h ==> HeadFitted(GridOf(out[..], rows, m), xs[q], ys[q], q, n, d, m, lambda)
      invariant forall q: nat :: q < h ==> !Refused(xs[q], ys[q], n, d, m, lambda)
    {
      ghost var before := out[..];
      forall p | 0 <= p < aug.Length {
        aug[p] := 0.0;
      }
      rc := FitHead(aug, xs[h], ys[h], n, d, m, lambda);
      if rc != 0 {
        return;
      }
      assert out[..] == before;
      ghost var was := GridOf(out[..], rows, m);
      CopyBlock(aug, out, heads, h, d, m);
      HeadDone(GridOf(aug[..], d, d + m), GridOf(out[..], rows, m), xs[h], ys[h], h, n, d, m, lambda);
      forall q: nat | q < h ensures HeadFitted(GridOf(out[..], rows, m), xs[q], ys[q], q, n, d, m, lambda) {
        RowBase(h, d, q);
        FittedStays(was, GridOf(out[..], rows, m), xs[q], ys[q], q, n, d, m, lambda, Base(h, d));
      }
    }
  }

  lemma HeadDone(g: Grid, out: Grid, xs: seq<real>, ys: seq<real>, h: nat, n: nat, d: nat, m: nat, lambda: real)
    requires forall w: Matrix :: IsRidge(At(xs, d), At(ys, m), n, d, m, lambda, w) <==> Agrees(g, 0, d, m, d, w)
    requires RowsCopied(g, out, Base(h, d), d, d, m)
    ensures HeadFitted(out, xs, ys, h, n, d, m, lambda)
  {
    hide Base, IsRidge, At, Agrees, RowsCopied;
    forall w: Matrix ensures Agrees(g, 0, d, m, d, w) <==> Agrees(out, Base(h, d), d, m, 0, w) {
      CopiedAgrees(g, out, Base(h, d), d, m, w);
    }
  }

  /** The rows of a fitted head, as a matrix. */
  function FittedBlock(g: Grid, h: nat, d: nat): Matrix {
    (i: nat, j: nat) => BlockEntry(g, Base(h, d), 0, i, j)
  }

  /** A fitted head minimises its regularised squared error, column by column, against every other choice. */
  lemma FittedMinimises(g: Grid, xs: seq<real>, ys: seq<real>, h: nat, n: nat, d: nat, m: nat, lambda: real,
                        j: nat, v: Vec)
    requires HeadFitted(g, xs, ys, h, n, d, m, lambda) && lambda >= 0.0 && j < m
    ensures Loss(At(xs, d), ColumnOf(At(ys, m), j), n, d, lambda, ColumnOf(FittedBlock(g, h, d), j)) <=
            Loss(At(xs, d), ColumnOf(At(ys, m), j), n, d, lambda, v)
  {
    var w := FittedBlock(g, h, d);
    var x, y, u := At(xs, d), ColumnOf(At(ys, m), j), ColumnOf(w, j);
    assert Agrees(g, Base(h, d), d, m, 0, w);
    hide Base, BlockEntry, Agrees, At, Loss, Normal;
    assert Normal(x, y, n, d, lambda, u);
    var e := (i: nat) => v(i) - u(i);
    NormalMinimises(x, y, n, d, lambda, u, e);
    LossSame(x, y, n, d, lambda, Plus(u, e), v);
  }

  lemma LossSame(x: Matrix, y: Vec, n: nat, d: nat, lambda: real, u: Vec, v: Vec)
    requires forall i: nat :: u(i) == v(i)
    ensures Loss(x, y, n, d, lambda, u) == Loss(x, y, n, d, lambda, v)
  {
    InnerSame(u, u, v, d);
    InnerSame(v, u, v, d);
    InnerComm(u, v, d);
    forall k: nat ensures Predict(x, d, u)(k) == Predict(x, d, v)(k) {
      SigmaSame((i: nat) => Times(x(k, i), u(i)), (i: nat) => Times(x(k, i), v(i)), d);
    }
    var a, b := Residual(x, y, d, u), Residual(x, y, d, v);
    hide Inner, Predict;
    InnerSame(a, a, b, n);
    InnerSame(b, a, b, n);
    InnerComm(a, b, n);
  }
}
