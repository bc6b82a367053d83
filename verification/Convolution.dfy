/**
 The direct convolution kernel: two outputs per thread, 512 threads per workgroup, one row of
 workgroups for every batch entry and output channel; and the one- and two-dimensional entry points,
 which call it with unit depth and height. Values are reals.
 */
module Convolution {
  import opened Bits
  import opened Reals

  /** One spatial axis: input size, output size, taps, padding, stride, dilation. */
  datatype Axis = Axis(size: nat, outs: nat, taps: nat, pad: nat, stride: nat, dil: nat)

  /** Batch, input channels, output channels, and depth, height and width. */
  datatype Shape = Shape(n: nat, c: nat, k: nat, d: Axis, h: Axis, w: Axis)

  /** The axis an entry point fills in for a dimension its tensors do not have. */
  const UNIT: Axis := Axis(1, 1, 1, 0, 1, 1)

  // ---------------------------------------------------------------- what a convolution means

  /** Input coordinate that tap f of output o reads. */
  function Coordinate(a: Axis, o: nat, f: nat): int { o * a.stride + f * a.dil - a.pad }

  /** Row-major position inside the tensors, after the group of batch or output channel and input channel. */
  function Group(a: nat, n: nat, b: nat): nat { a * n + b }

  function Flat1(g: int, W: int, w: int): int { g * W + w }

  function Flat2(g: int, H: int, h: int, W: int, w: int): int { g * H * W + h * W + w }

  function Flat3(g: int, D: int, d: int, H: int, h: int, W: int, w: int): int { (g * D + d) * H * W + h * W + w }

  lemma FlatUnit(g: int, H: int, h: int, W: int, w: int)
    ensures Flat3(g, 1, 0, H, h, W, w) == Flat2(g, H, h, W, w)
    ensures Flat2(g, 1, 0, W, w) == Flat1(g, W, w)
  {
    assert g * 1 + 0 == g && 0 * W == 0;
  }

  function Get(s: seq<real>, i: int): real { if 0 <= i < |s| then s[i] else 0.0 }

  predicate Inside(a: Axis, i: int) { 0 <= i < a.size }

  /** NCDHW input, zero outside. */
  function Input3(s: Shape, x: seq<real>, b: nat, c: nat, d: int, h: int, w: int): real {
    if Inside(s.d, d) && Inside(s.h, h) && Inside(s.w, w)
    then Get(x, Flat3(Group(b, s.c, c), s.d.size, d, s.h.size, h, s.w.size, w))
    else 0.0
  }

  /** KCDHW weights. */
  function Weight3(s: Shape, w: seq<real>, k: nat, c: nat, d: nat, h: nat, v: nat): real {
    Get(w, Flat3(Group(k, s.c, c), s.d.taps, d, s.h.taps, h, s.w.taps, v))
  }

  /** One output position: batch, output channel, and the three coordinates. */
  datatype Place = Place(b: nat, k: nat, d: nat, h: nat, w: nat)

  function Term3(s: Shape, x: seq<real>, w: seq<real>, o: Place, c: nat, fd: nat, fh: nat, fw: nat): real {
    Times(Input3(s, x, o.b, c, Coordinate(s.d, o.d, fd), Coordinate(s.h, o.h, fh), Coordinate(s.w, o.w, fw)),
          Weight3(s, w, o.k, c, fd, fh, fw))
  }

  /** Sum over the first m taps of the width. */
  function OverW(s: Shape, x: seq<real>, w: seq<real>, o: Place, c: nat, fd: nat, fh: nat, m: nat): real {
    if m == 0 then 0.0 else OverW(s, x, w, o, c, fd, fh, m - 1) + Term3(s, x, w, o, c, fd, fh, m - 1)
  }

  function OverH(s: Shape, x: seq<real>, w: seq<real>, o: Place, c: nat, fd: nat, m: nat): real {
    if m == 0 then 0.0 else OverH(s, x, w, o, c, fd, m - 1) + OverW(s, x, w, o, c, fd, m - 1, s.w.taps)
  }

  function OverD(s: Shape, x: seq<real>, w: seq<real>, o: Place, c: nat, m: nat): real {
    if m == 0 then 0.0 else OverD(s, x, w, o, c, m - 1) + OverH(s, x, w, o, c, m - 1, s.h.taps)
  }

  function OverC(s: Shape, x: seq<real>, w: seq<real>, o: Place, m: nat): real {
    if m == 0 then 0.0 else OverC(s, x, w, o, m - 1) + OverD(s, x, w, o, m - 1, s.d.taps)
  }

  /** alpha times the sum over channels and taps. */
  function Conv3(s: Shape, x: seq<real>, w: seq<real>, alpha: real, o: Place): real {
    Times(alpha, OverC(s, x, w, o, s.c))
  }

  // ---------------------------------------------------------------- two and one dimensions

  function Input2(s: Shape, x: seq<real>, b: nat, c: nat, h: int, w: int): real {
    if Inside(s.h, h) && Inside(s.w, w) then Get(x, Flat2(Group(b, s.c, c), s.h.size, h, s.w.size, w)) else 0.0
  }

  function Weight2(s: Shape, w: seq<real>, k: nat, c: nat, h: nat, v: nat): real {
    Get(w, Flat2(Group(k, s.c, c), s.h.taps, h, s.w.taps, v))
  }

  function Term2(s: Shape, x: seq<real>, w: seq<real>, o: Place, c: nat, fh: nat, fw: nat): real {
    Times(Input2(s, x, o.b, c, Coordinate(s.h, o.h, fh), Coordinate(s.w, o.w, fw)), Weight2(s, w, o.k, c, fh, fw))
  }

  function OverW2(s: Shape, x: seq<real>, w: seq<real>, o: Place, c: nat, fh: nat, m: nat): real {
    if m == 0 then 0.0 else OverW2(s, x, w, o, c, fh, m - 1) + Term2(s, x, w, o, c, fh, m - 1)
  }

  function OverH2(s: Shape, x: seq<real>, w: seq<real>, o: Place, c: nat, m: nat): real {
    if m == 0 then 0.0 else OverH2(s, x, w, o, c, m - 1) + OverW2(s, x, w, o, c, m - 1, s.w.taps)
  }

  function OverC2(s: Shape, x: seq<real>, w: seq<real>, o: Place, m: nat): real {
    if m == 0 then 0.0 else OverC2(s, x, w, o, m - 1) + OverH2(s, x, w, o, m - 1, s.h.taps)
  }

  /** NCHW convolution, by its own indices. */
  function Conv2(s: Shape, x: seq<real>, w: seq<real>, alpha: real, o: Place): real {
    Times(alpha, OverC2(s, x, w, o, s.c))
  }

  function Term1(s: Shape, x: seq<real>, w: seq<real>, o: Place, c: nat, f: nat): real {
    var i := Coordinate(s.w, o.w, f);
    Times(if Inside(s.w, i) then Get(x, Flat1(Group(o.b, s.c, c), s.w.size, i)) else 0.0,
          Get(w, Flat1(Group(o.k, s.c, c), s.w.taps, f)))
  }

  function OverW1(s: Shape, x: seq<real>, w: seq<real>, o: Place, c: nat, m: nat): real {
    if m == 0 then 0.0 else OverW1(s, x, w, o, c, m - 1) + Term1(s, x, w, o, c, m - 1)
  }

  function OverC1(s: Shape, x: seq<real>, w: seq<real>, o: Place, m: nat): real {
    if m == 0 then 0.0 else OverC1(s, x, w, o, m - 1) + OverW1(s, x, w, o, m - 1, s.w.taps)
  }

  /** NCL convolution, by its own indices. */
  function Conv1(s: Shape, x: seq<real>, w: seq<real>, alpha: real, o: Place): real {
    Times(alpha, OverC1(s, x, w, o, s.c))
  }

  lemma UnitCoordinate()
    ensures Coordinate(UNIT, 0, 0) == 0
  {
  }

  lemma Term2Is3(s: Shape, x: seq<real>, w: seq<real>, o: Place, c: nat, fh: nat, fw: nat)
    requires s.d == UNIT && o.d == 0
    ensures Term3(s, x, w, o, c, 0, fh, fw) == Term2(s, x, w, o, c, fh, fw)
  {
    hide Coordinate, Flat1, Flat2, Flat3, Group, Get, Times;
    UnitCoordinate();
    FlatUnit(Group(o.b, s.c, c), s.h.size, Coordinate(s.h, o.h, fh), s.w.size, Coordinate(s.w, o.w, fw));
    FlatUnit(Group(o.k, s.c, c), s.h.taps, fh, s.w.taps, fw);
  }

  lemma {:induction false} OverW2Is3(s: Shape, x: seq<real>, w: seq<real>, o: Place, c: nat, fh: nat, m: nat)
    requires s.d == UNIT && o.d == 0
    ensures OverW(s, x, w, o, c, 0, fh, m) == OverW2(s, x, w, o, c, fh, m)
  {
    hide Term2, Term3;
    if m > 0 {
      OverW2Is3(s, x, w, o, c, fh, m - 1);
      Term2Is3(s, x, w, o, c, fh, m - 1);
    }
  }

  lemma {:induction false} OverH2Is3(s: Shape, x: seq<real>, w: seq<real>, o: Place, c: nat, m: nat)
    requires s.d == UNIT && o.d == 0
    ensures OverH(s, x, w, o, c, 0, m) == OverH2(s, x, w, o, c, m)
  {
    hide OverW, OverW2;
    if m > 0 {
      OverH2Is3(s, x, w, o, c, m - 1);
      OverW2Is3(s, x, w, o, c, m - 1, s.w.taps);
    }
  }

  lemma {:induction false} OverC2Is3(s: Shape, x: seq<real>, w: seq<real>, o: Place, m: nat)
    requires s.d == UNIT && o.d == 0
    ensures OverC(s, x, w, o, m) == OverC2(s, x, w, o, m)
  {
    hide OverH, OverH2;
    if m > 0 {
      OverC2Is3(s, x, w, o, m - 1);
      OverH2Is3(s, x, w, o, m - 1, s.h.taps);
      var c: nat := m - 1;
      assert OverD(s, x, w, o, c, 1) == OverD(s, x, w, o, c, 0) + OverH(s, x, w, o, c, 0, s.h.taps);
    }
  }

  /** The 3D kernel with a unit depth computes the 2D convolution. */
  lemma Conv2Is3(s: Shape, x: seq<real>, w: seq<real>, alpha: real, o: Place)
    requires s.d == UNIT && o.d == 0
    ensures Conv3(s, x, w, alpha, o) == Conv2(s, x, w, alpha, o)
  {
    hide OverC, OverC2, Times;
    OverC2Is3(s, x, w, o, s.c);
  }

  lemma Term1Is2(s: Shape, x: seq<real>, w: seq<real>, o: Place, c: nat, f: nat)
    requires s.h == UNIT && o.h == 0
    ensures Term2(s, x, w, o, c, 0, f) == Term1(s, x, w, o, c, f)
  {
    hide Coordinate, Flat1, Flat2, Flat3, Group, Get, Times;
    UnitCoordinate();
    FlatUnit(Group(o.b, s.c, c), 0, 0, s.w.size, Coordinate(s.w, o.w, f));
    FlatUnit(Group(o.k, s.c, c), 0, 0, s.w.taps, f);
  }

  lemma {:induction false} OverW1Is2(s: Shape, x: seq<real>, w: seq<real>, o: Place, c: nat, m: nat)
    requires s.h == UNIT && o.h == 0
    ensures OverW2(s, x, w, o, c, 0, m) == OverW1(s, x, w, o, c, m)
  {
    hide Term1, Term2;
    if m > 0 {
      OverW1Is2(s, x, w, o, c, m - 1);
      Term1Is2(s, x, w, o, c, m - 1);
    }
  }

  lemma {:induction false} OverC1Is2(s: Shape, x: seq<real>, w: seq<real>, o: Place, m: nat)
    requires s.h == UNIT && o.h == 0
    ensures OverC2(s, x, w, o, m) == OverC1(s, x, w, o, m)
  {
    hide OverW1, OverW2;
    if m > 0 {
      OverC1Is2(s, x, w, o, m - 1);
      var c: nat := m - 1;
      OverW1Is2(s, x, w, o, c, s.w.taps);
      assert OverH2(s, x, w, o, c, 1) == OverH2(s, x, w, o, c, 0) + OverW2(s, x, w, o, c, 0, s.w.taps);
    }
  }

  /** With a unit height as well it computes the 1D convolution. */
  lemma Conv1Is3(s: Shape, x: seq<real>, w: seq<real>, alpha: real, o: Place)
    requires s.d == UNIT && s.h == UNIT && o.d == 0 && o.h == 0
    ensures Conv3(s, x, w, alpha, o) == Conv1(s, x, w, alpha, o)
  {
    hide OverC, OverC1, OverC2, Times;
    Conv2Is3(s, x, w, alpha, o);
    OverC1Is2(s, x, w, o, s.c);
  }

  // ---------------------------------------------------------------- flat outputs

  function Spatial(s: Shape): nat { s.d.outs * s.h.outs * s.w.outs }

  /** The place of flat spatial output p. */
  function PlaceOf(s: Shape, b: nat, k: nat, p: nat): Place
    requires s.h.outs > 0 && s.w.outs > 0 && s.h.outs * s.w.outs > 0
  {
    Place(b, k, Quotient(p, s.h.outs * s.w.outs), Remainder(Quotient(p, s.w.outs), s.h.outs), Remainder(p, s.w.outs))
  }

  /** NKDHW output cell of a place. */
  function Cell(s: Shape, o: Place): int {
    Flat3(Group(o.b, s.k, o.k), s.d.outs, o.d, s.h.outs, o.h, s.w.outs, o.w)
  }

  /** Splitting a flat output into coordinates and flattening them again gives it back. */
  lemma CellOfPlace(s: Shape, b: nat, k: nat, p: nat)
    requires p < Spatial(s)
    ensures s.h.outs > 0 && s.w.outs > 0 && s.h.outs * s.w.outs > 0
    ensures PlaceOf(s, b, k, p).d < s.d.outs && PlaceOf(s, b, k, p).h < s.h.outs && PlaceOf(s, b, k, p).w < s.w.outs
    ensures PlaceOf(s, b, k, p).b == b && PlaceOf(s, b, k, p).k == k
    ensures Cell(s, PlaceOf(s, b, k, p)) == Base(Group(b, s.k, k), Spatial(s)) + p
  {
    hide Base, Flat3, Group;
    SplitFlat(Group(b, s.k, k), p, s.d.outs, s.h.outs, s.w.outs);
  }

  lemma SplitFlat(g: nat, p: nat, D: nat, H: nat, W: nat)
    requires p < D * H * W
    ensures H > 0 && W > 0 && H * W > 0
    ensures Quotient(p, H * W) < D && Remainder(Quotient(p, W), H) < H && Remainder(p, W) < W
    ensures Flat3(g, D, Quotient(p, H * W), H, Remainder(Quotient(p, W), H), W, Remainder(p, W)) ==
            Base(g, D * H * W) + p
  {
    hide Quotient, Remainder, Base, Flat3;
    PositiveProduct(D, H, W);
    var q, r := Quotient(p, W), Remainder(p, W);
    var e, t := Quotient(q, H), Remainder(q, H);
    DivMod(p, W);
    DivMod(q, H);
    SplitTwice(p, H, W, e, t, r);
    QuotientBelow(p, D, H * W, e, t * W + r);
    FlattenArithmetic(g, D, H, W, e, t, r, p);
  }

  lemma ZeroProduct(a: nat, b: nat)
    requires a == 0 || b == 0
    ensures a * b == 0
  {
  }

  lemma PositiveProduct(a: nat, b: nat, c: nat)
    requires a * b * c > 0
    ensures a > 0 && b > 0 && c > 0 && b * c > 0
  {
    if b == 0 || a == 0 {
      ZeroProduct(a, b);
    }
  }

  lemma DivMod(p: nat, d: nat)
    requires d > 0
    ensures p == Quotient(p, d) * d + Remainder(p, d) && Remainder(p, d) < d
  {
    assert d * (p / d) == p / d * d;
  }

  lemma SplitTwice(p: nat, H: nat, W: nat, e: nat, t: nat, r: nat)
    requires H * W > 0 && p == (e * H + t) * W + r && t < H && r < W
    ensures p == e * (H * W) + (t * W + r) && t * W + r < H * W
    ensures Quotient(p, H * W) == e
  {
    assert (e * H + t) * W == e * (H * W) + t * W;
    var last := H - 1 - t;
    assert H * W == t * W + W + last * W;
    var n, m := H * W, t * W + r;
    assert p == n * e + m;
    DivModUnique(p, n, e, m);
  }

  lemma QuotientBelow(p: nat, D: nat, n: nat, e: nat, m: nat)
    requires p == e * n + m && p < D * n
    ensures e < D
  {
    if e >= D {
      MulMonotone(n, D, e);
    }
  }

  lemma FlattenArithmetic(g: nat, D: nat, H: nat, W: nat, d: nat, h: nat, w: nat, p: nat)
    requires p == d * (H * W) + (h * W + w)
    ensures Flat3(g, D, d, H, h, W, w) == Base(g, D * H * W) + p
  {
    var n := H * W;
    assert (g * D + d) * H * W == (g * D + d) * n;
    assert (g * D + d) * n == g * (D * n) + d * n;
    assert D * H * W == D * n;
  }
}
