/**
 Gauss-Jordan elimination with partial pivoting, in place on a row-major augmented matrix [G | B],
 over the reals.
 */
module GaussJordan {
  import opened Bits
  import opened Reals

  type Grid = seq<seq<real>>

  /** Pivots smaller than this count as absent. */
  const TINY: real := 1e-300

  // ---------------------------------------------------------------- rows as linear forms

  /** row[0] v(0) + ... + row[n-1] v(n-1) */
  function Eval(row: seq<real>, v: Vec): real {
    if row == [] then 0.0
    else
      var last: nat := |row| - 1;
      Eval(row[..last], v) + row[last] * v(last)
  }

  function Scaled(row: seq<real>, p: real): seq<real>
    requires p != 0.0
  {
    seq(|row|, c requires 0 <= c < |row| => row[c] / p)
  }

  function Minus(x: real, f: real, y: real): real { x - f * y }

  function Reduced(row: seq<real>, f: real, other: seq<real>): seq<real>
    requires |other| == |row|
  {
    seq(|row|, c requires 0 <= c < |row| => Minus(row[c], f, other[c]))
  }

  lemma {:induction false} EvalScaled(row: seq<real>, p: real, v: Vec)
    requires p != 0.0
    ensures Eval(Scaled(row, p), v) == Eval(row, v) / p
  {
    if row != [] {
      var last := |row| - 1;
      EvalScaled(row[..last], p, v);
      assert Scaled(row, p)[..last] == Scaled(row[..last], p);
      DivideTerms(row[last], Eval(row[..last], v), p, v(last));
    }
  }

  lemma ProductOf(a: real, q: real, p: real, x: real)
    requires a == q * p
    ensures a * x == q * x * p
  {
    assert q * p * x == q * (p * x);
    assert q * x * p == q * (x * p);
  }

  lemma QuotientOf(y: real, p: real, z: real)
    requires p != 0.0 && z == y * p
    ensures z / p == y
  {
  }

  lemma DivideTerms(a: real, e: real, p: real, x: real)
    requires p != 0.0
    ensures e / p + a / p * x == (e + a * x) / p
  {
    var q, u := a / p, e / p;
    ProductOf(a, q, p, x);
    var y := q * x;
    assert (u + y) * p == u * p + y * p;
    QuotientOf(u + y, p, e + a * x);
  }

  lemma {:induction false} EvalReduced(row: seq<real>, f: real, other: seq<real>, v: Vec)
    requires |other| == |row|
    ensures Eval(Reduced(row, f, other), v) == Eval(row, v) - f * Eval(other, v)
  {
    if row != [] {
      var last := |row| - 1;
      EvalReduced(row[..last], f, other[..last], v);
      assert Reduced(row, f, other)[..last] == Reduced(row[..last], f, other[..last]);
      ReducedTerm(row[last], f, other[last], v(last), Eval(other[..last], v));
    }
  }

  lemma ReducedTerm(a: real, f: real, b: real, x: real, e: real)
    ensures (a - f * b) * x - f * e == a * x - f * (e + b * x)
  {
  }

  // ---------------------------------------------------------------- one column step on values

  ghost predicate Shape(g: Grid, d: nat, w: nat) {
    |g| == d && forall r: nat :: r < d ==> |g[r]| == w
  }

  function Swapped(g: Grid, i: nat, j: nat): Grid
    requires i < |g| && j < |g|
  {
    g[i := g[j]][j := g[i]]
  }

  /** Every row but `col` loses its multiple of row `col`. */
  function Cleared(g: Grid, col: nat): Grid
    requires col < |g| && forall r: nat :: r < |g| ==> |g[r]| == |g[col]| && col < |g[r]|
  {
    seq(|g|, r requires 0 <= r < |g| => if r == col then g[r] else Reduced(g[r], g[r][col], g[col]))
  }

  function Pivoted(g: Grid, d: nat, w: nat, col: nat, pivot: nat): (g': Grid)
    requires Shape(g, d, w) && col < w && col < d && pivot < d && g[pivot][col] != 0.0
    ensures Shape(g', d, w)
  {
    var s := Swapped(g, col, pivot);
    Cleared(s[col := Scaled(s[col], s[col][col])], col)
  }

  ghost predicate Zero(g: Grid, v: Vec) {
    forall r: nat :: r < |g| ==> Eval(g[r], v) == 0.0
  }

  ghost predicate ZeroUpTo(g: Grid, v: Vec, col: nat) {
    forall r: nat :: r < col && r < |g| ==> Eval(g[r], v) == 0.0
  }

  ghost predicate Within(g: Grid, v: Vec, t: real) {
    forall r: nat :: r < |g| ==> -t <= Eval(g[r], v) <= t
  }

  ghost predicate UnitColumns(g: Grid, w: nat, col: nat)
    requires forall r: nat :: r < |g| ==> |g[r]| == w
  {
    forall r: nat, c: nat :: r < |g| && c < col && c < w ==> g[r][c] == if r == c then 1.0 else 0.0
  }

  /** g keeps the zeros of g0; where its first `col` rows vanish it bounds g0; its first `col` columns are unit. */
  ghost predicate Reduces(g0: Grid, g: Grid, d: nat, w: nat, col: nat) {
    && Shape(g0, d, w) && Shape(g, d, w)
    && (forall v :: Zero(g0, v) ==> Zero(g, v))
    && (forall v, t :: ZeroUpTo(g, v, col) && Within(g, v, t) ==> Within(g0, v, t))
    && UnitColumns(g, w, col)
  }

  /** The rows of Pivoted as linear forms of the rows before. */
  lemma PivotedEval(g: Grid, d: nat, w: nat, col: nat, pivot: nat, r: nat, v: Vec)
    requires Shape(g, d, w) && col < w && col < d && pivot < d && g[pivot][col] != 0.0 && r < d
    ensures var s, g' := Swapped(g, col, pivot), Pivoted(g, d, w, col, pivot);
            && Eval(g'[col], v) == Eval(s[col], v) / g[pivot][col]
            && Eval(g'[r], v) ==
               if r == col then Eval(g'[col], v) else Eval(s[r], v) - s[r][col] * Eval(g'[col], v)
  {
    hide Eval;
    var s := Swapped(g, col, pivot);
    EvalScaled(s[col], s[col][col], v);
    if r != col {
      EvalReduced(s[r], s[r][col], Scaled(s[col], s[col][col]), v);
    }
  }

  lemma PivotedKeepsZero(g: Grid, d: nat, w: nat, col: nat, pivot: nat, v: Vec)
    requires Shape(g, d, w) && col < w && col < d && pivot < d && g[pivot][col] != 0.0
    requires Zero(g, v)
    ensures Zero(Pivoted(g, d, w, col, pivot), v)
  {
    hide Eval, Pivoted;
    var g' := Pivoted(g, d, w, col, pivot);
    forall r: nat | r < d ensures Eval(g'[r], v) == 0.0 {
      PivotedEval(g, d, w, col, pivot, r, v);
    }
  }

  lemma PivotedKeepsBound(g: Grid, d: nat, w: nat, col: nat, pivot: nat, v: Vec, t: real)
    requires Shape(g, d, w) && col < w && col <= pivot < d && g[pivot][col] != 0.0
    requires ZeroUpTo(Pivoted(g, d, w, col, pivot), v, col + 1) && Within(Pivoted(g, d, w, col, pivot), v, t)
    ensures ZeroUpTo(g, v, col) && Within(g, v, t)
  {
    hide Eval, Pivoted;
    var g', s := Pivoted(g, d, w, col, pivot), Swapped(g, col, pivot);
    assert Eval(g'[col], v) == 0.0;
    forall r: nat | r < d ensures Eval(s[r], v) == Eval(g'[r], v) {
      PivotedEval(g, d, w, col, pivot, r, v);
      if r == col {
        ZeroQuotient(Eval(s[col], v), g[pivot][col]);
      }
    }
    assert g[pivot] == s[col] && g[col] == s[pivot];
    assert forall r: nat :: r < d && r != col && r != pivot ==> g[r] == s[r];
  }

  lemma ZeroQuotient(x: real, p: real)
    requires p != 0.0 && x / p == 0.0
    ensures x == 0.0
  {
    assert x == x / p * p;
  }

  lemma PivotedEntries(g: Grid, d: nat, w: nat, col: nat, pivot: nat)
    requires Shape(g, d, w) && col < w && col <= pivot < d && g[pivot][col] != 0.0 && UnitColumns(g, w, col)
    ensures var s, g' := Swapped(g, col, pivot), Pivoted(g, d, w, col, pivot);
            && Shape(s, d, w) && s[col][col] == g[pivot][col]
            && (forall r: nat, c: nat :: r < d && c < col ==> s[r][c] == if r == c then 1.0 else 0.0)
            && (forall c: nat :: c < w ==> g'[col][c] == s[col][c] / s[col][col])
            && (forall r: nat, c: nat :: r < d && r != col && c < w ==>
                  g'[r][c] == s[r][c] - s[r][col] * (s[col][c] / s[col][col]))
  {
  }

  lemma UnitArithmetic(a: real, f: real, b: real, p: real)
    requires p != 0.0
    ensures b == 0.0 ==> b / p == 0.0 && a - f * (b / p) == a
    ensures b == p ==> b / p == 1.0 && a - f * (b / p) == a - f
  {
  }

  lemma PivotedUnit(g: Grid, d: nat, w: nat, col: nat, pivot: nat)
    requires Shape(g, d, w) && col < w && col <= pivot < d && g[pivot][col] != 0.0
    requires UnitColumns(g, w, col)
    ensures UnitColumns(Pivoted(g, d, w, col, pivot), w, col + 1)
  {
    var g', s := Pivoted(g, d, w, col, pivot), Swapped(g, col, pivot);
    PivotedEntries(g, d, w, col, pivot);
    hide Pivoted, Swapped;
    forall r: nat, c: nat | r < d && c <= col ensures g'[r][c] == if r == c then 1.0 else 0.0 {
      UnitArithmetic(s[r][c], s[r][col], s[col][c], g[pivot][col]);
    }
  }

  /** A column step keeps the invariant and finishes one more column. */
  lemma PivotedReduces(g0: Grid, g: Grid, d: nat, w: nat, col: nat, pivot: nat)
    requires Reduces(g0, g, d, w, col) && col < w && col <= pivot < d && g[pivot][col] != 0.0
    ensures Reduces(g0, Pivoted(g, d, w, col, pivot), d, w, col + 1)
  {
    hide Pivoted, Zero, ZeroUpTo, Within, UnitColumns;
    var g' := Pivoted(g, d, w, col, pivot);
    forall v | Zero(g0, v) ensures Zero(g', v) {
      PivotedKeepsZero(g, d, w, col, pivot, v);
    }
    forall v, t | ZeroUpTo(g', v, col + 1) && Within(g', v, t) ensures Within(g0, v, t) {
      PivotedKeepsBound(g, d, w, col, pivot, v, t);
    }
    PivotedUnit(g, d, w, col, pivot);
  }

  // ---------------------------------------------------------------- what the end of a run means

  /** x solves G x = B: for every row and right-hand column, the row of G applied to x is the entry of B. */
  ghost predicate IsSolution(g: Grid, d: nat, m: nat, x: (nat, nat) -> real)
    requires Shape(g, d, d + m)
  {
    forall r: nat, j: nat :: r < d && j < m ==> Eval(g[r][..d], ColumnOf(x, j)) == g[r][d + j]
  }

  function ColumnOf(x: (nat, nat) -> real, j: nat): Vec { (k: nat) => x(k, j) }

  /** Column j of x, and -1 against column j of B. */
  function Extended(x: (nat, nat) -> real, d: nat, j: nat): Vec {
    (k: nat) => if k < d then x(k, j) else if k == d + j then -1.0 else 0.0
  }

  lemma {:induction false} EvalLeft(row: seq<real>, n: nat, x: (nat, nat) -> real, d: nat, j: nat)
    requires n <= |row| && n <= d
    ensures Eval(row[..n], Extended(x, d, j)) == Eval(row[..n], ColumnOf(x, j))
  {
    if n > 0 {
      EvalLeft(row, n - 1, x, d, j);
      assert row[..n][..n - 1] == row[..n - 1];
    }
  }

  lemma {:induction false} EvalExtended(row: seq<real>, n: nat, x: (nat, nat) -> real, d: nat, j: nat)
    requires d <= n <= |row|
    ensures Eval(row[..n], Extended(x, d, j)) ==
            Eval(row[..d], ColumnOf(x, j)) - if d + j < n then row[d + j] else 0.0
    decreases n
  {
    if n == d {
      EvalLeft(row, d, x, d, j);
    } else {
      EvalExtended(row, n - 1, x, d, j);
      EvalLast(row, n, Extended(x, d, j));
      hide Eval;
    }
  }

  lemma EvalLast(row: seq<real>, n: nat, v: Vec)
    requires 0 < n <= |row|
    ensures Eval(row[..n], v) == Eval(row[..n - 1], v) + row[n - 1] * v(n - 1)
  {
    assert row[..n][..n - 1] == row[..n - 1];
  }

  lemma SolutionIsZero(g: Grid, d: nat, m: nat, x: (nat, nat) -> real)
    requires Shape(g, d, d + m)
    ensures IsSolution(g, d, m, x) <==> forall j: nat :: j < m ==> Zero(g, Extended(x, d, j))
  {
    hide Eval;
    forall r: nat, j: nat | r < d && j < m
      ensures Eval(g[r], Extended(x, d, j)) == Eval(g[r][..d], ColumnOf(x, j)) - g[r][d + j]
    {
      EvalExtended(g[r], d + m, x, d, j);
      assert g[r][..d + m] == g[r];
    }
    if forall j: nat :: j < m ==> Zero(g, Extended(x, d, j)) {
      forall r: nat, j: nat | r < d && j < m ensures Eval(g[r][..d], ColumnOf(x, j)) == g[r][d + j] {
        assert Zero(g, Extended(x, d, j));
      }
    }
  }

  /** A row whose first n entries are those of the identity row r reads off v(r). */
  lemma {:induction false} EvalUnit(row: seq<real>, n: nat, r: nat, v: Vec)
    requires n <= |row| && forall c: nat :: c < n ==> row[c] == if r == c then 1.0 else 0.0
    ensures Eval(row[..n], v) == if r < n then v(r) else 0.0
  {
    if n > 0 {
      EvalUnit(row, n - 1, r, v);
      assert row[..n][..n - 1] == row[..n - 1];
    }
  }

  /** A finished reduction has the right block as the only solution of the system it started from. */
  lemma FinishedSolves(g0: Grid, g: Grid, d: nat, m: nat, x: (nat, nat) -> real)
    requires Reduces(g0, g, d, d + m, d)
    ensures IsSolution(g0, d, m, x) <==> forall r: nat, j: nat :: r < d && j < m ==> x(r, j) == g[r][d + j]
  {
    SolutionIsZero(g0, d, m, x);
    SolutionIsZero(g, d, m, x);
    forall v ensures Zero(g0, v) <==> Zero(g, v) {
      if Zero(g, v) {
        assert ZeroUpTo(g, v, d) && Within(g, v, 0.0);
        assert Within(g0, v, 0.0);
      }
    }
    forall r: nat | r < d ensures forall j: nat :: j < m ==> Eval(g[r][..d], ColumnOf(x, j)) == x(r, j) {
      forall j: nat | j < m ensures Eval(g[r][..d], ColumnOf(x, j)) == x(r, j) {
        EvalUnit(g[r], d, r, ColumnOf(x, j));
      }
    }
  }

  /** A vector with a unit entry among the first d, and nothing beyond them, that g0 maps into [-t, t]. */
  ghost predicate NearKernel(g0: Grid, d: nat, v: Vec, t: real) {
    && Within(g0, v, t)
    && (exists c: nat :: c < d && v(c) == 1.0)
    && forall k: nat :: k >= d ==> v(k) == 0.0
  }

  /** The combination of the columns up to `col` that the first `col` rows send to zero. */
  function Kernel(g: Grid, w: nat, col: nat): Vec
    requires col < w && forall r: nat :: r < |g| ==> |g[r]| == w
  {
    (k: nat) => if k == col then 1.0 else if k < col && k < |g| then -g[k][col] else 0.0
  }

  lemma {:induction false} EvalKernel(g: Grid, w: nat, col: nat, r: nat, n: nat)
    requires (forall r: nat :: r < |g| ==> |g[r]| == w) && col < w && col < |g| && UnitColumns(g, w, col)
    requires r < |g| && n <= w
    ensures Eval(g[r][..n], Kernel(g, w, col)) ==
            (if r < col && r < n then -g[r][col] else 0.0) + if col < n then g[r][col] else 0.0
  {
    if n > 0 {
      EvalKernel(g, w, col, r, n - 1);
      assert g[r][..n][..n - 1] == g[r][..n - 1];
    }
  }

  /** When no candidate pivot exceeds t, the system it came from is within t of singular. */
  lemma StuckIsNearSingular(g0: Grid, g: Grid, d: nat, w: nat, col: nat, t: real)
    requires Reduces(g0, g, d, w, col) && col < d <= w
    requires t >= 0.0 && forall r: nat :: col <= r < d ==> Abs(g[r][col]) <= t
    ensures NearKernel(g0, d, Kernel(g, w, col), t)
  {
    hide Eval;
    var v := Kernel(g, w, col);
    forall r: nat | r < d ensures Eval(g[r], v) == if r < col then 0.0 else g[r][col] {
      EvalKernel(g, w, col, r, w);
      assert g[r][..w] == g[r];
    }
    assert ZeroUpTo(g, v, col) && Within(g, v, t);
    assert v(col) == 1.0;
  }

  /** A finished reduction leaves no kernel: only the zero vector is sent to zero. */
  lemma FinishedHasNoKernel(g0: Grid, g: Grid, d: nat, w: nat, v: Vec)
    requires Reduces(g0, g, d, w, d) && d <= w
    ensures !NearKernel(g0, d, v, 0.0)
  {
    if NearKernel(g0, d, v, 0.0) {
      var c: nat :| c < d && v(c) == 1.0;
      ZeroOnly(g0, g, d, w, v, c);
    }
  }

  lemma ZeroOnly(g0: Grid, g: Grid, d: nat, w: nat, v: Vec, c: nat)
    requires Reduces(g0, g, d, w, d) && c < d <= w
    requires Within(g0, v, 0.0) && forall k: nat :: k >= d ==> v(k) == 0.0
    ensures v(c) == 0.0
  {
    assert Zero(g0, v);
    EvalUnit(g[c], d, c, v);
    EvalTail(g[c], d, w, v);
    assert g[c][..w] == g[c];
  }

  lemma {:induction false} EvalTail(row: seq<real>, d: nat, n: nat, v: Vec)
    requires d <= n <= |row| && forall k: nat :: k >= d ==> v(k) == 0.0
    ensures Eval(row[..n], v) == Eval(row[..d], v)
  {
    if n > d {
      EvalTail(row, d, n - 1, v);
      assert row[..n][..n - 1] == row[..n - 1];
    }
  }

  // ---------------------------------------------------------------- which systems are refused

  /** The first row among col .. n-1 with the largest entry in column col. */
  function PivotRow(g: Grid, d: nat, w: nat, col: nat, n: nat): (p: nat)
    requires Shape(g, d, w) && col < n <= d && col < w
    ensures col <= p < n
    ensures forall r: nat :: col <= r < n ==> Abs(g[r][col]) <= Abs(g[p][col])
    ensures forall r: nat :: col <= r < p ==> Abs(g[r][col]) < Abs(g[p][col])
  {
    if n == col + 1 then col
    else
      var p := PivotRow(g, d, w, col, n - 1);
      if Abs(g[n - 1][col]) > Abs(g[p][col]) then n - 1 else p
  }

  /** Elimination from column col on meets a column whose candidate pivots are all zero, or all below `tiny`. */
  ghost predicate Fails(g: Grid, d: nat, w: nat, col: nat, tiny: real)
    requires Shape(g, d, w) && col <= d <= w
    decreases d - col
  {
    col < d &&
    var p := PivotRow(g, d, w, col, d);
    var best := Abs(g[p][col]);
    best < tiny || best == 0.0 || Fails(Pivoted(g, d, w, col, p), d, w, col + 1, tiny)
  }

  ghost predicate Singular(g: Grid, d: nat) {
    exists v :: NearKernel(g, d, v, 0.0)
  }

  lemma {:induction false} EliminationDecides(g0: Grid, g: Grid, d: nat, w: nat, col: nat, tiny: real)
    returns (v: Vec, t: real)
    requires Reduces(g0, g, d, w, col) && col <= d <= w
    ensures Fails(g, d, w, col, tiny) ==> t >= 0.0 && (t < tiny || t == 0.0) && NearKernel(g0, d, v, t)
    ensures !Fails(g, d, w, col, tiny) ==> !Singular(g0, d)
    decreases d - col
  {
    hide Reduces, NearKernel, Pivoted;
    assert Shape(g, d, w) by { ReducesShape(g0, g, d, w, col); }
    v, t := (k: nat) => 0.0, 0.0;
    if col == d {
      forall u ensures !NearKernel(g0, d, u, 0.0) {
        FinishedHasNoKernel(g0, g, d, w, u);
      }
    } else {
      var p := PivotRow(g, d, w, col, d);
      var best := Abs(g[p][col]);
      if best < tiny || best == 0.0 {
        StuckIsNearSingular(g0, g, d, w, col, best);
        v, t := Kernel(g, w, col), best;
      } else {
        PivotedReduces(g0, g, d, w, col, p);
        v, t := EliminationDecides(g0, Pivoted(g, d, w, col, p), d, w, col + 1, tiny);
      }
    }
  }

  lemma FailsStep(g: Grid, d: nat, w: nat, col: nat, tiny: real)
    requires Shape(g, d, w) && col < d <= w && tiny > 0.0
    ensures var p := PivotRow(g, d, w, col, d);
            var best := Abs(g[p][col]);
            if best < tiny then Fails(g, d, w, col, tiny)
            else
              g[p][col] != 0.0 &&
              Fails(g, d, w, col, tiny) == Fails(Pivoted(g, d, w, col, p), d, w, col + 1, tiny)
  {
    hide PivotRow, Pivoted;
  }

  lemma ReducesShape(g0: Grid, g: Grid, d: nat, w: nat, col: nat)
    requires Reduces(g0, g, d, w, col)
    ensures Shape(g, d, w)
  {
  }

  lemma StartReduces(g: Grid, d: nat, w: nat)
    requires Shape(g, d, w)
    ensures Reduces(g, g, d, w, 0)
  {
  }

  /** A refusal at threshold zero is exactly singularity. At the threshold the code uses every singular system is
      refused, and every refused system is within that threshold of singular. */
  lemma RefusalMeans(g: Grid, d: nat, w: nat) returns (v: Vec, t: real)
    requires Shape(g, d, w) && d <= w
    ensures Fails(g, d, w, 0, 0.0) <==> Singular(g, d)
    ensures Singular(g, d) ==> Fails(g, d, w, 0, TINY)
    ensures Fails(g, d, w, 0, TINY) ==> 0.0 <= t < TINY && NearKernel(g, d, v, t)
  {
    hide Fails, NearKernel;
    StartReduces(g, d, w);
    var u, s := EliminationDecides(g, g, d, w, 0, 0.0);
    v, t := EliminationDecides(g, g, d, w, 0, TINY);
  }

  /** From column col on, the left block has entries on its diagonal only. */
  ghost predicate DiagonalFrom(g: Grid, d: nat, w: nat, col: nat)
    requires Shape(g, d, w) && d <= w
  {
    forall r: nat, c: nat :: r < d && col <= c < d && r != c ==> g[r][c] == 0.0
  }

  lemma PivotedDiagonal(g: Grid, d: nat, w: nat, col: nat)
    requires Shape(g, d, w) && col < d <= w && DiagonalFrom(g, d, w, col) && g[col][col] != 0.0
    ensures var g' := Pivoted(g, d, w, col, col);
            DiagonalFrom(g', d, w, col + 1) && forall r: nat :: col < r < d ==> g'[r][r] == g[r][r]
  {
    var g', s := Pivoted(g, d, w, col, col), Swapped(g, col, col);
    assert s == g;
    forall r: nat, c: nat | r < d && r != col && col < c < d ensures g'[r][c] == g[r][c] {
      assert g'[r][c] == g[r][c] - g[r][col] * (g[col][c] / g[col][col]);
      assert g[r][col] == 0.0;
    }
    forall c: nat | col < c < d ensures g'[col][c] == 0.0 {
      assert g'[col][c] == g[col][c] / g[col][col];
    }
  }

  /** Exactly which diagonal systems are refused, whatever the right-hand sides: those with a diagonal entry below
      1e-300 in magnitude. For one row that is its coefficient. */
  lemma {:induction false} DiagonalRefused(g: Grid, d: nat, w: nat, col: nat)
    requires Shape(g, d, w) && col <= d <= w && DiagonalFrom(g, d, w, col)
    ensures Fails(g, d, w, col, TINY) <==> exists r: nat :: col <= r < d && -1e-300 < g[r][r] < 1e-300
    decreases d - col
  {
    hide Pivoted, PivotRow, Abs;
    if col < d {
      DiagonalPivot(g, d, w, col);
      if g[col][col] != 0.0 {
        PivotedDiagonal(g, d, w, col);
        DiagonalRefused(Pivoted(g, d, w, col, col), d, w, col + 1);
      }
    }
  }

  /** In a diagonal system the pivot is the diagonal entry, unless the whole column is zero. */
  lemma DiagonalPivot(g: Grid, d: nat, w: nat, col: nat)
    requires Shape(g, d, w) && col < d <= w && DiagonalFrom(g, d, w, col)
    ensures var p := PivotRow(g, d, w, col, d);
            && (g[col][col] != 0.0 ==> p == col)
            && Abs(g[p][col]) == Abs(g[col][col])
            && (Abs(g[p][col]) < TINY <==> -1e-300 < g[col][col] < 1e-300)
            && (Abs(g[p][col]) == 0.0 <==> g[col][col] == 0.0)
  {
    var p := PivotRow(g, d, w, col, d);
    if p != col {
      assert g[p][col] == 0.0;
    }
  }

  /** Refusal and singularity differ: one equation with coefficient 1e-301 has one solution and is refused. */
  lemma NonsingularRefused()
    ensures var g := [[1e-301, 1.0]]; Shape(g, 1, 2) && Fails(g, 1, 2, 0, TINY) && !Singular(g, 1)
  {
    var g := [[1e-301, 1.0]];
    var v, t := RefusalMeans(g, 1, 2);
    assert PivotRow(g, 1, 2, 0, 1) == 0;
    var g' := Pivoted(g, 1, 2, 0, 0);
    assert !Fails(g', 1, 2, 1, 0.0);
  }

  // ---------------------------------------------------------------- the flat array

  function Row(s: seq<real>, r: nat, w: nat): seq<real> {
    if Base(r, w) + w <= |s| then s[Base(r, w)..Base(r, w) + w] else []
  }

  function GridOf(s: seq<real>, d: nat, w: nat): Grid {
    seq(d, r requires r >= 0 => Row(s, r, w))
  }

  lemma GridShape(s: seq<real>, d: nat, w: nat)
    requires |s| == Base(d, w)
    ensures Shape(GridOf(s, d, w), d, w)
    ensures forall r: nat :: r < d ==> Base(r, w) + w <= |s| && GridOf(s, d, w)[r] == s[Base(r, w)..Base(r, w) + w]
  {
    hide Base;
    forall r: nat | r < d ensures Base(r, w) + w <= |s| {
      RowBase(d, w, r);
    }
  }

  lemma EntryAt(s: seq<real>, d: nat, w: nat, r: nat, c: nat)
    requires |s| == Base(d, w) && r < d && c < w
    ensures Base(r, w) + c < |s| && Shape(GridOf(s, d, w), d, w)
    ensures GridOf(s, d, w)[r][c] == s[Base(r, w) + c]
  {
    hide Base;
    GridShape(s, d, w);
  }

  /** A change confined to rows i and j leaves the other rows of the grid alone. */
  lemma RowsChanged(s: seq<real>, s': seq<real>, d: nat, w: nat, i: nat, j: nat)
    requires |s| == |s'| == Base(d, w) && i < d && j < d
    requires forall p: nat ::
               (p < |s| && !(Base(i, w) <= p < Base(i, w) + w) && !(Base(j, w) <= p < Base(j, w) + w)) ==> s'[p] == s[p]
    ensures GridOf(s', d, w) == GridOf(s, d, w)[i := Row(s', i, w)][j := Row(s', j, w)]
  {
    hide Base;
    var g, g' := GridOf(s, d, w), GridOf(s', d, w);
    forall r: nat | r < d && r != i && r != j ensures g'[r] == g[r] {
      RowBase(d, w, r);
      RowsApart(w, r, i);
      RowsApart(w, r, j);
    }
  }

  /** The row of the largest entry of the column, at or below the diagonal; the first of equals. */
  method FindPivot(a: array<real>, d: nat, w: nat, col: nat) returns (pivot: nat, best: real)
    requires a.Length == Base(d, w) && col < d <= w
    ensures col <= pivot < d
    ensures Shape(GridOf(a[..], d, w), d, w)
    ensures pivot == PivotRow(GridOf(a[..], d, w), d, w, col, d)
    ensures best == Abs(GridOf(a[..], d, w)[pivot][col])
  {
    hide Base, GridOf, Row;
    ghost var s := a[..];
    ghost var g := GridOf(s, d, w);
    EntryAt(s, d, w, col, col);
    pivot := col;
    best := Abs(a[Base(col, w) + col]);
    for r := col + 1 to d
      invariant pivot == PivotRow(g, d, w, col, r)
      invariant best == Abs(g[pivot][col])
    {
      EntryAt(s, d, w, r, col);
      var v := Abs(a[Base(r, w) + col]);
      if v > best {
        best, pivot := v, r;
      }
    }
  }

  method SwapRows(a: array<real>, d: nat, w: nat, i: nat, j: nat)
    requires a.Length == Base(d, w) && i < d && j < d && i != j
    modifies a
    ensures GridOf(a[..], d, w) == Swapped(GridOf(old(a[..]), d, w), i, j)
  {
    hide Base, Swapped;
    ghost var s := a[..];
    RowBase(d, w, i);
    RowBase(d, w, j);
    RowsApart(w, i, j);
    var bi, bj := Base(i, w), Base(j, w);
    for c := 0 to w
      invariant forall p: nat {:trigger a[p]} :: p < |s| ==>
                  a[p] == if bi <= p < bi + c then s[bj + (p - bi)]
                          else if bj <= p < bj + c then s[bi + (p - bj)]
                          else s[p]
    {
      a[bi + c], a[bj + c] := a[bj + c], a[bi + c];
    }
    SwapDone(s, a[..], d, w, i, j);
  }

  lemma SwapDone(s: seq<real>, s': seq<real>, d: nat, w: nat, i: nat, j: nat)
    requires |s| == |s'| == Base(d, w) && i < d && j < d && i != j
    requires Base(i, w) + w <= |s| && Base(j, w) + w <= |s|
    requires var bi, bj := Base(i, w), Base(j, w);
             forall p: nat {:trigger s'[p]} :: p < |s| ==>
               s'[p] == if bi <= p < bi + w then s[bj + (p - bi)]
                        else if bj <= p < bj + w then s[bi + (p - bj)]
                        else s[p]
    ensures GridOf(s', d, w) == Swapped(GridOf(s, d, w), i, j)
  {
    hide Base;
    RowsChanged(s, s', d, w, i, j);
    RowsApart(w, i, j);
    assert Row(s', i, w) == Row(s, j, w);
    assert Row(s', j, w) == Row(s, i, w);
  }

  method ScaleRow(a: array<real>, d: nat, w: nat, row: nat, piv: real)
    requires a.Length == Base(d, w) && row < d && piv != 0.0
    modifies a
    ensures GridOf(a[..], d, w) ==
            GridOf(old(a[..]), d, w)[row := Scaled(GridOf(old(a[..]), d, w)[row], piv)]
  {
    hide Base;
    ghost var s := a[..];
    RowBase(d, w, row);
    var base := Base(row, w);
    for c := 0 to w
      invariant forall p: nat :: p < |s| ==> a[p] == if base <= p < base + c then s[p] / piv else s[p]
    {
      a[base + c] := a[base + c] / piv;
    }
    RowsChanged(s, a[..], d, w, row, row);
    assert Row(a[..], row, w) == Scaled(Row(s, row, w), piv);
  }

  /** Subtract f times row `col` from row `row`. */
  method ReduceRow(a: array<real>, d: nat, w: nat, row: nat, col: nat, f: real)
    requires a.Length == Base(d, w) && row < d && col < d && row != col
    requires Shape(GridOf(a[..], d, w), d, w)
    modifies a
    ensures var g := GridOf(old(a[..]), d, w);
            GridOf(a[..], d, w) == g[row := Reduced(g[row], f, g[col])]
  {
    hide Base;
    ghost var s := a[..];
    RowBase(d, w, row);
    RowBase(d, w, col);
    RowsApart(w, row, col);
    var base, from := Base(row, w), Base(col, w);
    for c := 0 to w
      invariant forall p: nat {:trigger a[p]} :: p < |s| ==>
                  a[p] == if base <= p < base + c then Minus(s[p], f, s[from + (p - base)]) else s[p]
    {
      assert Minus(a[base + c], f, a[from + c]) == a[base + c] - f * a[from + c];
      a[base + c] := a[base + c] - f * a[from + c];
    }
    ReduceDone(s, a[..], d, w, row, col, f);
  }

  lemma ReducedRow(s: seq<real>, s': seq<real>, d: nat, w: nat, row: nat, col: nat, f: real)
    requires |s| == |s'| && Base(row, w) + w <= |s| && Base(col, w) + w <= |s|
    requires forall p: nat {:trigger s'[p]} :: Base(row, w) <= p < Base(row, w) + w ==>
               s'[p] == Minus(s[p], f, s[Base(col, w) + (p - Base(row, w))])
    ensures Row(s', row, w) == Reduced(Row(s, row, w), f, Row(s, col, w))
  {
    hide Base, Minus;
    var base, from := Base(row, w), Base(col, w);
    forall c: nat | c < w ensures Row(s', row, w)[c] == Reduced(Row(s, row, w), f, Row(s, col, w))[c] {
      assert s'[base + c] == Minus(s[base + c], f, s[from + c]);
    }
  }

  lemma ReduceDone(s: seq<real>, s': seq<real>, d: nat, w: nat, row: nat, col: nat, f: real)
    requires |s| == |s'| == Base(d, w) && row < d && col < d && row != col
    requires Base(row, w) + w <= |s| && Base(col, w) + w <= |s| && Shape(GridOf(s, d, w), d, w)
    requires forall p: nat {:trigger s'[p]} :: p < |s| ==>
               s'[p] == if Base(row, w) <= p < Base(row, w) + w
                        then Minus(s[p], f, s[Base(col, w) + (p - Base(row, w))])
                        else s[p]
    ensures var g := GridOf(s, d, w); GridOf(s', d, w) == g[row := Reduced(g[row], f, g[col])]
  {
    hide Base, Minus;
    RowsChanged(s, s', d, w, row, row);
    ReducedRow(s, s', d, w, row, col, f);
  }

  /** The rows below `done` are cleared, the others are as in g. */
  ghost predicate RowsCleared(g: Grid, want: Grid, now: Grid, done: nat) {
    |now| == |g| == |want| && forall q: nat :: q < |g| ==> now[q] == if q < done then want[q] else g[q]
  }

  lemma NextCleared(g: Grid, want: Grid, now: Grid, r: nat)
    requires RowsCleared(g, want, now, r) && r < |g|
    ensures now[r] == g[r] && RowsCleared(g, want, now[r := want[r]], r + 1)
    ensures want[r] == g[r] ==> RowsCleared(g, want, now, r + 1)
  {
  }

  /** Clear the column in every row but its own; rows whose entry is already zero are skipped. */
  method ClearColumn(a: array<real>, d: nat, w: nat, col: nat)
    requires a.Length == Base(d, w) && col < d && col < w
    requires Shape(GridOf(a[..], d, w), d, w)
    modifies a
    ensures GridOf(a[..], d, w) == Cleared(GridOf(old(a[..]), d, w), col)
  {
    hide Base, Reduced, GridOf, Row, Pivoted, RowsCleared, Cleared;
    ghost var g := GridOf(a[..], d, w);
    ghost var want := Cleared(g, col);
    StartCleared(g, col);
    for r := 0 to d
      invariant RowsCleared(g, want, GridOf(a[..], d, w), r)
    {
      ghost var now := GridOf(a[..], d, w);
      GridShape(a[..], d, w);
      EntryAt(a[..], d, w, r, col);
      NextCleared(g, want, now, r);
      ClearedRow(g, want, now, r, col);
      if r != col {
        var f := a[Base(r, w) + col];
        if f != 0.0 {
          ReduceRow(a, d, w, r, col, f);
        }
      }
    }
    AllCleared(g, want, GridOf(a[..], d, w));
  }

  lemma StartCleared(g: Grid, col: nat)
    requires col < |g| && forall r: nat :: r < |g| ==> |g[r]| == |g[col]| && col < |g[r]|
    ensures RowsCleared(g, Cleared(g, col), g, 0)
  {
  }

  lemma AllCleared(g: Grid, want: Grid, now: Grid)
    requires RowsCleared(g, want, now, |g|)
    ensures now == want
  {
  }

  /** What row r has to become, from the rows as they are when its turn comes. */
  lemma ClearedRow(g: Grid, want: Grid, now: Grid, r: nat, col: nat)
    requires col < |g| && r < |g| && forall r: nat :: r < |g| ==> |g[r]| == |g[col]| && col < |g[r]|
    requires want == Cleared(g, col) && RowsCleared(g, want, now, r)
    ensures |now[r]| == |now[col]| && col < |now[r]|
    ensures want[r] == if r == col || now[r][col] == 0.0 then now[r] else Reduced(now[r], now[r][col], now[col])
  {
    assert now[col] == g[col];
    if r != col && g[r][col] == 0.0 {
      NothingReduced(g[r], g[col]);
    }
    hide Reduced;
  }

  lemma NothingReduced(row: seq<real>, other: seq<real>)
    requires |other| == |row|
    ensures Reduced(row, 0.0, other) == row
  {
  }

  /** 0: the left block is the identity and the right block is the only solution. -1: the elimination failed, and v
      shows that the system is within TINY of singular. */
  method SolveLinear(a: array<real>, d: nat, m: nat) returns (rc: int, ghost v: Vec, ghost t: real)
    requires a.Length == Base(d, d + m)
    modifies a
    ensures Shape(GridOf(old(a[..]), d, d + m), d, d + m) && Shape(GridOf(a[..], d, d + m), d, d + m)
    ensures rc == if Fails(GridOf(old(a[..]), d, d + m), d, d + m, 0, TINY) then -1 else 0
    ensures rc == 0 ==> Reduces(GridOf(old(a[..]), d, d + m), GridOf(a[..], d, d + m), d, d + m, d)
    ensures rc == -1 ==> 0.0 <= t < TINY && NearKernel(GridOf(old(a[..]), d, d + m), d, v, t)
  {
    hide Base, Pivoted, Swapped, Cleared, Scaled, GridOf, NearKernel, Reduces, Fails, PivotRow, Abs, Shape, Singular;
    var w := d + m;
    ghost var g0 := GridOf(a[..], d, w);
    GridShape(a[..], d, w);
    StartReduces(g0, d, w);
    v, t := RefusalMeans(g0, d, w);
    for col := 0 to d
      invariant Shape(GridOf(a[..], d, w), d, w)
      invariant Reduces(g0, GridOf(a[..], d, w), d, w, col)
      invariant Fails(g0, d, w, 0, TINY) == Fails(GridOf(a[..], d, w), d, w, col, TINY)
    {
      ghost var g := GridOf(a[..], d, w);
      FailsStep(g, d, w, col, TINY);
      var pivot, best := FindPivot(a, d, w, col);
      if best < TINY {
        return -1, v, t;
      }
      PivotStep(a, d, w, col, pivot);
      PivotedReduces(g0, g, d, w, col, pivot);
    }
    NoFailureAtEnd(GridOf(a[..], d, w), d, w);
    rc := 0;
  }

  lemma NoFailureAtEnd(g: Grid, d: nat, w: nat)
    requires Shape(g, d, w) && d <= w
    ensures !Fails(g, d, w, d, TINY)
  {
  }

  /** Swap, normalise, clear. */
  method PivotStep(a: array<real>, d: nat, w: nat, col: nat, pivot: nat)
    requires a.Length == Base(d, w) && col <= pivot < d && col < w
    requires Shape(GridOf(a[..], d, w), d, w) && GridOf(a[..], d, w)[pivot][col] != 0.0
    modifies a
    ensures GridOf(a[..], d, w) == Pivoted(GridOf(old(a[..]), d, w), d, w, col, pivot)
  {
    hide Base, Cleared, Scaled;
    ghost var g := GridOf(a[..], d, w);
    if pivot != col {
      SwapRows(a, d, w, col, pivot);
    }
    assert GridOf(a[..], d, w) == Swapped(g, col, pivot);
    GridShape(a[..], d, w);
    var piv := a[Base(col, w) + col];
    ScaleRow(a, d, w, col, piv);
    GridShape(a[..], d, w);
    ClearColumn(a, d, w, col);
  }
}
