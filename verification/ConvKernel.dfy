/**
 The grid and the threads of the direct convolution kernel, in the 32-bit arithmetic they use.
 */
module ConvKernel {
  import opened Bits
  import opened Reals
  import opened Convolution

  // ---------------------------------------------------------------- the grid

  function Spatial32(spatial: nat): nat { spatial % WORD }

  /** (spatial + 1) / 2 in 32 bits. */
  function Pairs(spatial: nat): nat { (Spatial32(spatial) + 1) % WORD / 2 }

  function GridX(spatial: nat): nat { (Pairs(spatial) + 511) % WORD / 512 }

  /** Thread number t (over all workgroups of a row) computes output p. */
  predicate Computes(spatial: nat, t: nat, p: nat) {
    t < GridX(spatial) * 512 && t < Pairs(spatial) && (p == 2 * t || (p == 2 * t + 1 && p < Spatial32(spatial)))
  }

  /** Every output has one thread, and every computing thread works inside the outputs, exactly when the number of
      spatial outputs is below 2^32 - 1. */
  lemma GridCovers(spatial: nat)
    ensures (forall p: nat :: p < spatial ==> Computes(spatial, p / 2, p)) <==> spatial < 0xFFFF_FFFF
    ensures forall t: nat, p: nat :: Computes(spatial, t, p) ==> t == p / 2 && p < spatial
  {
    forall t: nat, p: nat | Computes(spatial, t, p) ensures t == p / 2 && p < spatial {
      PairInside(spatial);
    }
    EnoughThreads(spatial);
    hide GridX, Pairs, Spatial32;
    if spatial < 0xFFFF_FFFF {
      forall p: nat | p < spatial ensures Computes(spatial, p / 2, p) {
      }
    } else {
      var p: nat := spatial - 1;
      assert !Computes(spatial, p / 2, p);
    }
  }

  /** What a computing thread works on lies inside the 32-bit count, which is at most the true one. */
  lemma PairInside(spatial: nat)
    ensures Spatial32(spatial) <= spatial && Spatial32(spatial) < WORD
    ensures Spatial32(spatial) < 0xFFFF_FFFF ==> Pairs(spatial) == (Spatial32(spatial) + 1) / 2
    ensures Spatial32(spatial) == 0xFFFF_FFFF ==> Pairs(spatial) == 0
  {
  }

  /** Below 2^32 - 1 nothing wraps, and rounding up gives enough workgroups; from there on the last output has none. */
  lemma EnoughThreads(spatial: nat)
    ensures spatial < 0xFFFF_FFFF ==> Spatial32(spatial) == spatial && Pairs(spatial) == (spatial + 1) / 2
    ensures spatial < 0xFFFF_FFFF ==> Pairs(spatial) <= GridX(spatial) * 512
    ensures spatial >= 0xFFFF_FFFF ==> Spatial32(spatial) < spatial || Pairs(spatial) == 0
    ensures Spatial32(spatial) <= spatial
  {
  }

  // ---------------------------------------------------------------- coordinates

  /** The coordinate as the kernel computes it: unsigned arithmetic, then a cast to a signed word. */
  function Coordinate32(a: Axis, o: nat, f: nat): int {
    Signed32(Coordinate(a, o, f))
  }

  /** The kernel's bounds test, which casts the size as well. */
  predicate Inside32(a: Axis, i: int) { 0 <= i < Signed32(a.size) }

  /** The test is right for tap f of output o, and so is the coordinate if it is inside. */
  predicate ReadsAt(a: Axis, o: nat, f: nat) {
    && (Inside32(a, Coordinate32(a, o, f)) <==> Inside(a, Coordinate(a, o, f)))
    && (Inside(a, Coordinate(a, o, f)) ==> Coordinate32(a, o, f) == Coordinate(a, o, f))
  }

  ghost predicate AxisReads(a: Axis) {
    forall o: nat, f: nat :: o < a.outs && f < a.taps ==> ReadsAt(a, o, f)
  }

  /** All casts are harmless, of the coordinates and of the size. */
  ghost predicate AxisExact(a: Axis) {
    && Signed32(a.size) == a.size
    && forall o: nat, f: nat :: o < a.outs && f < a.taps ==> Coordinate32(a, o, f) == Coordinate(a, o, f)
  }

  lemma SignedExact(v: int)
    ensures Signed32(v) == v <==> -0x8000_0000 <= v < 0x8000_0000
  {
  }

  /** Coordinates lie between that of the first tap of the first output and that of the last tap of the last. */
  lemma CoordinateRange(a: Axis, o: nat, f: nat)
    requires o < a.outs && f < a.taps
    ensures -(a.pad as int) <= Coordinate(a, o, f) <= Coordinate(a, a.outs - 1, a.taps - 1)
    ensures Coordinate(a, 0, 0) == -(a.pad as int)
  {
    MulMonotone(a.stride, o, a.outs - 1);
    MulMonotone(a.dil, f, a.taps - 1);
  }

  /** The casts are harmless exactly when the size, the first and the last coordinate fit a signed word. */
  lemma AxisExactWhen(a: Axis)
    requires a.outs > 0 && a.taps > 0
    ensures AxisExact(a) <==>
            && a.size < 0x8000_0000 && a.pad <= 0x8000_0000
            && Coordinate(a, a.outs - 1, a.taps - 1) < 0x8000_0000
  {
    hide Signed32, Coordinate;
    var o': nat, f': nat := a.outs - 1, a.taps - 1;
    CoordinateRange(a, 0, 0);
    SignedExact(a.size);
    SignedExact(Coordinate(a, 0, 0));
    SignedExact(Coordinate(a, o', f'));
    if AxisExact(a) {
      assert Coordinate32(a, 0, 0) == Coordinate(a, 0, 0);
      assert Coordinate32(a, o', f') == Coordinate(a, o', f');
    } else if Signed32(a.size) == a.size {
      var o: nat, f: nat :| o < a.outs && f < a.taps && Coordinate32(a, o, f) != Coordinate(a, o, f);
      CoordinateRange(a, o, f);
      SignedExact(Coordinate(a, o, f));
    }
  }

  /** One tap is read right exactly when its coordinate is inside or does not wrap into the axis; with a size of
      2^31 or more nothing passes the test, so then exactly when it is not inside. */
  lemma ReadsAtWhen(a: Axis, o: nat, f: nat)
    requires a.size < WORD
    ensures var v := Coordinate(a, o, f);
            ReadsAt(a, o, f) <==>
            if a.size < 0x8000_0000 then Inside(a, v) || v % WORD >= a.size else !Inside(a, v)
  {
    hide Coordinate;
    var v := Coordinate(a, o, f);
    if 0 <= v < WORD {
      assert v % WORD == v;
    }
    assert a.size % WORD == a.size;
  }

  /** While the last coordinate fits a word and the size a signed one, an axis is read right exactly when its size
      and its padding together fit a word. */
  lemma AxisReadsWhen(a: Axis)
    requires a.outs > 0 && a.taps > 0 && a.size < 0x8000_0000 && a.pad < WORD
    requires Coordinate(a, a.outs - 1, a.taps - 1) < WORD
    ensures AxisReads(a) <==> a.pad + a.size <= WORD
  {
    hide Coordinate, ReadsAt;
    if a.pad + a.size <= WORD {
      forall o: nat, f: nat | o < a.outs && f < a.taps ensures ReadsAt(a, o, f) {
        ReadsAtWhen(a, o, f);
        CoordinateRange(a, o, f);
        WordOf(Coordinate(a, o, f));
      }
    } else {
      ReadsAtWhen(a, 0, 0);
      CoordinateRange(a, 0, 0);
      WordOf(-(a.pad as int));
      assert !ReadsAt(a, 0, 0);
    }
  }

  lemma WordOf(v: int)
    requires -(WORD as int) < v < WORD
    ensures v % WORD == if v < 0 then v + WORD else v
  {
  }

  /** An axis of 2^31 or more is read right exactly when no tap of any output lies inside it. */
  lemma LargeAxisReads(a: Axis)
    requires 0x8000_0000 <= a.size < WORD
    ensures AxisReads(a) <==> forall o: nat, f: nat :: o < a.outs && f < a.taps ==> !Inside(a, Coordinate(a, o, f))
  {
    hide Coordinate, ReadsAt;
    forall o: nat, f: nat ensures ReadsAt(a, o, f) <==> !Inside(a, Coordinate(a, o, f)) {
      ReadsAtWhen(a, o, f);
    }
  }

  /** Harmless casts are more than enough. */
  lemma ExactReads(a: Axis)
    requires AxisExact(a)
    ensures AxisReads(a)
  {
    hide Signed32, Coordinate;
  }

  // ---------------------------------------------------------------- positions in the tensors

  function Volume(G: nat, D: nat, H: nat, W: nat): nat { G * D * H * W }

  predicate FlatExact(g: nat, D: nat, d: nat, H: nat, h: nat, W: nat, w: nat) {
    Flat3(g, D, d, H, h, W, w) % WORD == Flat3(g, D, d, H, h, W, w)
  }

  /** Positions computed in 32 bits are the true ones throughout a tensor exactly when it has at most 2^32 cells. */
  lemma FlatIndicesExact(G: nat, D: nat, H: nat, W: nat)
    ensures (forall g: nat, d: nat, h: nat, w: nat :: g < G && d < D && h < H && w < W ==>
                                                      FlatExact(g, D, d, H, h, W, w)) <==>
            Volume(G, D, H, W) <= WORD
  {
    hide Volume, Flat3;
    if Volume(G, D, H, W) <= WORD {
      forall g: nat, d: nat, h: nat, w: nat | g < G && d < D && h < H && w < W
        ensures FlatExact(g, D, d, H, h, W, w)
      {
        FlatBelow(G, D, H, W, g, d, h, w);
      }
    } else {
      LastFlat(G, D, H, W);
      assert !FlatExact(G - 1, D, D - 1, H, H - 1, W, W - 1);
    }
  }

  lemma FlatBelow(G: nat, D: nat, H: nat, W: nat, g: nat, d: nat, h: nat, w: nat)
    requires g < G && d < D && h < H && w < W
    ensures 0 <= Flat3(g, D, d, H, h, W, w) < Volume(G, D, H, W)
  {
    var planes, plane: nat := G * D, g * D + d;
    IndexBelow(D, g, G, d);
    PlaneBelow(planes, H, W, plane, h, w);
  }

  lemma PlaneBelow(planes: nat, H: nat, W: nat, plane: nat, h: nat, w: nat)
    requires plane < planes && h < H && w < W
    ensures plane * H * W + h * W + w < planes * H * W
  {
    MulTwice(plane, H, W);
    MulTwice(planes, H, W);
    IndexBelow(W, h, H, w);
    var n, m := H * W, h * W + w;
    IndexBelow(n, plane, planes, m);
  }

  lemma LastFlat(G: nat, D: nat, H: nat, W: nat)
    requires Volume(G, D, H, W) > 0
    ensures G > 0 && D > 0 && H > 0 && W > 0
    ensures Flat3(G - 1, D, D - 1, H, H - 1, W, W - 1) == Volume(G, D, H, W) - 1
  {
    PositiveProduct(G * D, H, W);
    if G == 0 || D == 0 {
      ZeroProduct(G, D);
    }
    var planes, plane: nat := G * D, H * W;
    LastOf(G, D);
    MulTwice(planes - 1, H, W);
    MulTwice(planes, H, W);
    LastOf(planes, plane);
    LastOf(H, W);
  }

  lemma LastOf(n: nat, m: nat)
    requires n > 0
    ensures (n - 1) * m + m == n * m
  {
  }

  // ---------------------------------------------------------------- one thread

  /** The kernel's fetch of the input: bounds test with casts, position in 32 bits. */
  function Input32(s: Shape, x: seq<real>, b: nat, c: nat, d: int, h: int, w: int): real {
    if Inside32(s.d, d) && Inside32(s.h, h) && Inside32(s.w, w)
    then Get(x, Flat3(Group(b, s.c, c), s.d.size, d, s.h.size, h, s.w.size, w) % WORD)
    else 0.0
  }

  function Weight32(s: Shape, w: seq<real>, k: nat, c: nat, d: nat, h: nat, v: nat): real {
    Get(w, Flat3(Group(k, s.c, c), s.d.taps, d, s.h.taps, h, s.w.taps, v) % WORD)
  }

  function Term32(s: Shape, x: seq<real>, w: seq<real>, o: Place, c: nat, fd: nat, fh: nat, fw: nat): real {
    Times(Input32(s, x, o.b, c, Coordinate32(s.d, o.d, fd), Coordinate32(s.h, o.h, fh), Coordinate32(s.w, o.w, fw)),
          Weight32(s, w, o.k, c, fd, fh, fw))
  }

  /** The axes are read right and the input and the weights have at most 2^32 elements each. */
  ghost predicate Readable(s: Shape) {
    && AxisReads(s.d) && AxisReads(s.h) && AxisReads(s.w)
    && Volume(Base(s.n, s.c), s.d.size, s.h.size, s.w.size) <= WORD
    && Volume(Base(s.k, s.c), s.d.taps, s.h.taps, s.w.taps) <= WORD
  }

  ghost predicate PlaceInside(s: Shape, o: Place) { o.d < s.d.outs && o.h < s.h.outs && o.w < s.w.outs }

  lemma PositionExact(n: nat, a: nat, count: nat, c: nat, D: nat, d: nat, H: nat, h: nat, W: nat, w: nat)
    requires a < n && c < count && d < D && h < H && w < W && Volume(Base(n, count), D, H, W) <= WORD
    ensures FlatExact(Group(a, count, c), D, d, H, h, W, w)
  {
    hide Volume, Flat3;
    RowBase(n, count, a);
    assert Group(a, count, c) == Base(a, count) + c;
    FlatIndicesExact(Base(n, count), D, H, W);
  }

  lemma InputExact(s: Shape, x: seq<real>, b: nat, c: nat, o: Place, fd: nat, fh: nat, fw: nat)
    requires Readable(s) && PlaceInside(s, o) && fd < s.d.taps && fh < s.h.taps && fw < s.w.taps
    requires b < s.n && c < s.c
    ensures Input32(s, x, b, c, Coordinate32(s.d, o.d, fd), Coordinate32(s.h, o.h, fh), Coordinate32(s.w, o.w, fw)) ==
            Input3(s, x, b, c, Coordinate(s.d, o.d, fd), Coordinate(s.h, o.h, fh), Coordinate(s.w, o.w, fw))
  {
    hide Coordinate, Coordinate32, Inside32, Flat3, Group, Get, Volume, Base;
    var d, h, w := Coordinate(s.d, o.d, fd), Coordinate(s.h, o.h, fh), Coordinate(s.w, o.w, fw);
    assert ReadsAt(s.d, o.d, fd) && ReadsAt(s.h, o.h, fh) && ReadsAt(s.w, o.w, fw);
    if Inside(s.d, d) && Inside(s.h, h) && Inside(s.w, w) {
      PositionExact(s.n, b, s.c, c, s.d.size, d, s.h.size, h, s.w.size, w);
    }
  }

  lemma TermExact(s: Shape, x: seq<real>, w: seq<real>, o: Place, c: nat, fd: nat, fh: nat, fw: nat)
    requires Readable(s) && PlaceInside(s, o) && fd < s.d.taps && fh < s.h.taps && fw < s.w.taps
    requires o.b < s.n && o.k < s.k && c < s.c
    ensures Term32(s, x, w, o, c, fd, fh, fw) == Term3(s, x, w, o, c, fd, fh, fw)
  {
    InputExact(s, x, o.b, c, o, fd, fh, fw);
    PositionExact(s.k, o.k, s.c, c, s.d.taps, fd, s.h.taps, fh, s.w.taps, fw);
    hide Coordinate, Coordinate32, Times, Input3, Input32, Flat3, Group, Get, Volume, AxisReads;
  }

  /** The loop nest of one thread: two sums over the same weights; the second only if it has an output. */
  method Sums(s: Shape, x: seq<real>, w: seq<real>, o0: Place, o1: Place, second: bool)
    returns (sum0: real, sum1: real)
    requires Readable(s) && PlaceInside(s, o0) && o0.b < s.n && o0.k < s.k
    requires second ==> PlaceInside(s, o1) && o1.b < s.n && o1.k < s.k
    ensures sum0 == OverC(s, x, w, o0, s.c)
    ensures second ==> sum1 == OverC(s, x, w, o1, s.c)
  {
    hide Term3, Term32, Readable, PlaceInside;
    sum0, sum1 := 0.0, 0.0;
    for ic := 0 to s.c
      invariant sum0 == OverC(s, x, w, o0, ic)
      invariant second ==> sum1 == OverC(s, x, w, o1, ic)
    {
      for fd := 0 to s.d.taps
        invariant sum0 == OverC(s, x, w, o0, ic) + OverD(s, x, w, o0, ic, fd)
        invariant second ==> sum1 == OverC(s, x, w, o1, ic) + OverD(s, x, w, o1, ic, fd)
      {
        for fh := 0 to s.h.taps
          invariant sum0 == OverC(s, x, w, o0, ic) + OverD(s, x, w, o0, ic, fd) + OverH(s, x, w, o0, ic, fd, fh)
          invariant second ==>
                      sum1 == OverC(s, x, w, o1, ic) + OverD(s, x, w, o1, ic, fd) + OverH(s, x, w, o1, ic, fd, fh)
        {
          ghost var start0, start1 := sum0, sum1;
          for fw := 0 to s.w.taps
            invariant sum0 == start0 + OverW(s, x, w, o0, ic, fd, fh, fw)
            invariant second ==> sum1 == start1 + OverW(s, x, w, o1, ic, fd, fh, fw)
          {
            TermExact(s, x, w, o0, ic, fd, fh, fw);
            sum0 := sum0 + Term32(s, x, w, o0, ic, fd, fh, fw);
            if second {
              TermExact(s, x, w, o1, ic, fd, fh, fw);
              sum1 := sum1 + Term32(s, x, w, o1, ic, fd, fh, fw);
            }
          }
        }
      }
    }
  }

  /** The value of flat spatial output p of batch entry b and channel k. */
  function Value(s: Shape, x: seq<real>, w: seq<real>, alpha: real, b: nat, k: nat, p: nat): real
    requires p < Spatial(s)
  {
    CellOfPlace(s, b, k, p);
    Conv3(s, x, w, alpha, PlaceOf(s, b, k, p))
  }

  /** Thread t changes no cell but those of its outputs, which begin at `from`. */
  ghost predicate OnlyWrites(spatial: nat, t: nat, from: nat, before: seq<real>, after: seq<real>) {
    |after| == |before| &&
    forall q: nat :: q < |after| ==> after[q] == before[q] || (from <= q && Computes(spatial, t, q - from))
  }

  /** The place of flat output p of row (b, k), and the cell the kernel finds for it in 32 bits. */
  lemma PlaceInRow(s: Shape, b: nat, k: nat, p: nat, cells: nat)
    requires b < s.n && k < s.k && p < Spatial(s) && cells == Base(Base(s.n, s.k), Spatial(s)) <= WORD
    ensures s.h.outs > 0 && s.w.outs > 0 && s.h.outs * s.w.outs > 0
    ensures var o := PlaceOf(s, b, k, p);
            && PlaceInside(s, o) && o.b == b && o.k == k
            && Cell(s, o) % WORD == Base(Group(b, s.k, k), Spatial(s)) + p < cells
  {
    hide Base, Group, Spatial, PlaceOf, Cell;
    CellOfPlace(s, b, k, p);
    RowInside(s, b, k);
  }

  /** Thread t of the row of workgroups (b, k). */
  method Thread(s: Shape, x: seq<real>, w: seq<real>, alpha: real, b: nat, k: nat, t: nat, y: array<real>)
    requires Readable(s) && b < s.n && k < s.k && t < GridX(Spatial(s)) * 512
    requires y.Length == Base(Base(s.n, s.k), Spatial(s)) <= WORD
    modifies y
    ensures Base(Group(b, s.k, k), Spatial(s)) + Spatial(s) <= y.Length
    ensures forall p: nat :: p < Spatial(s) && Computes(Spatial(s), t, p) ==>
              y[..][Base(Group(b, s.k, k), Spatial(s)) + p] == Value(s, x, w, alpha, b, k, p)
    ensures OnlyWrites(Spatial(s), t, Base(Group(b, s.k, k), Spatial(s)), old(y[..]), y[..])
  {
    hide Base, Group, Readable, Spatial, PlaceOf, PlaceInside, Cell, OverC, Times, GridX, Pairs, Spatial32;
    RowInside(s, b, k);
    ghost var from := Base(Group(b, s.k, k), Spatial(s));
    var spatial := Spatial32(Spatial(s));
    if t >= Pairs(Spatial(s)) {
      assert forall p: nat :: !Computes(Spatial(s), t, p);
      return;
    }
    var p0, p1 := 2 * t, 2 * t + 1;
    assert Computes(Spatial(s), t, p0);
    GridCovers(Spatial(s));
    PlaceInRow(s, b, k, p0, y.Length);
    var o0 := PlaceOf(s, b, k, p0);
    var o1 := o0;
    if p1 < spatial {
      assert Computes(Spatial(s), t, p1);
      PlaceInRow(s, b, k, p1, y.Length);
      o1 := PlaceOf(s, b, k, p1);
    }
    var sum0, sum1 := Sums(s, x, w, o0, o1, p1 < spatial);
    y[Cell(s, o0) % WORD] := Times(alpha, sum0);
    if p1 < spatial {
      y[Cell(s, o1) % WORD] := Times(alpha, sum1);
    }
  }

  lemma RowInside(s: Shape, b: nat, k: nat)
    requires b < s.n && k < s.k
    ensures Group(b, s.k, k) < Base(s.n, s.k)
    ensures Base(Group(b, s.k, k), Spatial(s)) + Spatial(s) <= Base(Base(s.n, s.k), Spatial(s))
  {
    hide Spatial;
    RowBase(s.n, s.k, b);
    RowBase(Base(s.n, s.k), Spatial(s), Group(b, s.k, k));
  }

  /** The outputs below `done` of row (b, k) are in place. */
  ghost predicate RowDone(s: Shape, x: seq<real>, w: seq<real>, alpha: real, b: nat, k: nat, y: seq<real>, done: nat) {
    |y| >= Base(Group(b, s.k, k), Spatial(s)) + Spatial(s) &&
    forall p: nat :: p < Spatial(s) && p < done ==>
      y[Base(Group(b, s.k, k), Spatial(s)) + p] == Value(s, x, w, alpha, b, k, p)
  }

  lemma ThreadExtends(s: Shape, x: seq<real>, w: seq<real>, alpha: real, b: nat, k: nat, t: nat,
                      before: seq<real>, after: seq<real>)
    requires RowDone(s, x, w, alpha, b, k, before, 2 * t) && |after| == |before|
    requires Spatial(s) < 0xFFFF_FFFF && t < GridX(Spatial(s)) * 512
    requires forall p: nat :: p < Spatial(s) && Computes(Spatial(s), t, p) ==>
               after[Base(Group(b, s.k, k), Spatial(s)) + p] == Value(s, x, w, alpha, b, k, p)
    requires OnlyWrites(Spatial(s), t, Base(Group(b, s.k, k), Spatial(s)), before, after)
    ensures RowDone(s, x, w, alpha, b, k, after, 2 * t + 2)
  {
    hide Base, Group, Spatial, Value, GridX, Pairs, Spatial32, Computes, OnlyWrites;
    GridCovers(Spatial(s));
    var from := Base(Group(b, s.k, k), Spatial(s));
    forall p: nat | p < Spatial(s) && p < 2 * t + 2 ensures after[from + p] == Value(s, x, w, alpha, b, k, p) {
      if p >= 2 * t {
        assert p / 2 == t && Computes(Spatial(s), p / 2, p);
      } else {
        Untouched(Spatial(s), t, from, before, after, p);
        assert before[from + p] == Value(s, x, w, alpha, b, k, p);
      }
    }
  }

  lemma Untouched(spatial: nat, t: nat, from: nat, before: seq<real>, after: seq<real>, p: nat)
    requires OnlyWrites(spatial, t, from, before, after) && p / 2 != t && from + p < |after|
    ensures after[from + p] == before[from + p]
  {
    hide GridX, Pairs, Spatial32;
    assert !Computes(spatial, t, from + p - from);
  }

  /** Cells outside the row that begins at `from` are as before. */
  ghost predicate SameOutside(from: nat, width: nat, before: seq<real>, after: seq<real>) {
    |after| == |before| &&
    forall q: nat :: q < |after| && !(from <= q < from + width) ==> after[q] == before[q]
  }

  /** All workgroups of one batch entry and output channel. */
  method RowOfGroups(s: Shape, x: seq<real>, w: seq<real>, alpha: real, b: nat, k: nat, y: array<real>)
    requires Readable(s) && b < s.n && k < s.k && Spatial(s) < 0xFFFF_FFFF
    requires y.Length == Base(Base(s.n, s.k), Spatial(s)) <= WORD
    modifies y
    ensures RowDone(s, x, w, alpha, b, k, y[..], Spatial(s))
    ensures SameOutside(Base(Group(b, s.k, k), Spatial(s)), Spatial(s), old(y[..]), y[..])
  {
    hide Base, Group, Readable, Spatial, Value, GridX, Computes;
    RowInside(s, b, k);
    ghost var from := Base(Group(b, s.k, k), Spatial(s));
    var groups := GridX(Spatial(s));
    for gx := 0 to groups
      invariant RowDone(s, x, w, alpha, b, k, y[..], 1024 * gx)
      invariant SameOutside(from, Spatial(s), old(y[..]), y[..])
    {
      for tid := 0 to 512
        invariant RowDone(s, x, w, alpha, b, k, y[..], 1024 * gx + 2 * tid)
        invariant SameOutside(from, Spatial(s), old(y[..]), y[..])
      {
        ghost var before := y[..];
        Thread(s, x, w, alpha, b, k, gx * 512 + tid, y);
        ThreadExtends(s, x, w, alpha, b, k, gx * 512 + tid, before, y[..]);
        StaysInRow(Spatial(s), gx * 512 + tid, from, before, y[..]);
      }
    }
    EnoughThreads(Spatial(s));
  }

  lemma StaysInRow(spatial: nat, t: nat, from: nat, before: seq<real>, after: seq<real>)
    requires OnlyWrites(spatial, t, from, before, after)
    ensures SameOutside(from, spatial, before, after)
  {
    hide GridX, Pairs, Spatial32;
    GridCovers(spatial);
  }

  /** The whole dispatch: every output cell ends as the convolution's value at its place, whatever y held before and
      whatever beta is. */
  method Dispatch(s: Shape, x: seq<real>, w: seq<real>, alpha: real, beta: real, y: array<real>)
    requires Readable(s) && Spatial(s) < 0xFFFF_FFFF
    requires y.Length == Base(Base(s.n, s.k), Spatial(s)) <= WORD
    modifies y
    ensures forall b: nat, k: nat :: b < s.n && k < s.k ==> RowDone(s, x, w, alpha, b, k, y[..], Spatial(s))
  {
    hide Readable, Spatial, RowDone, Base, Group;
    for b := 0 to s.n
      invariant forall b': nat, k: nat :: b' < b && k < s.k ==> RowDone(s, x, w, alpha, b', k, y[..], Spatial(s))
    {
      for k := 0 to s.k
        invariant forall b': nat, k': nat :: b' < b && k' < s.k ==> RowDone(s, x, w, alpha, b', k', y[..], Spatial(s))
        invariant forall k': nat :: k' < k ==> RowDone(s, x, w, alpha, b, k', y[..], Spatial(s))
      {
        ghost var before := y[..];
        RowOfGroups(s, x, w, alpha, b, k, y);
        forall b': nat, k': nat
          | b' <= b && k' < s.k && (b', k') != (b, k) && RowDone(s, x, w, alpha, b', k', before, Spatial(s))
          ensures RowDone(s, x, w, alpha, b', k', y[..], Spatial(s))
        {
          OtherRow(s, x, w, alpha, b, k, b', k', before, y[..]);
        }
      }
    }
  }

  lemma OtherRow(s: Shape, x: seq<real>, w: seq<real>, alpha: real, b: nat, k: nat, b': nat, k': nat,
                 before: seq<real>, after: seq<real>)
    requires (b', k') != (b, k) && k < s.k && k' < s.k
    requires RowDone(s, x, w, alpha, b', k', before, Spatial(s))
    requires SameOutside(Base(Group(b, s.k, k), Spatial(s)), Spatial(s), before, after)
    ensures RowDone(s, x, w, alpha, b', k', after, Spatial(s))
  {
    hide Base, Spatial, Value;
    GroupsDiffer(s.k, b, k, b', k');
    hide Group;
    RowsApart(Spatial(s), Group(b, s.k, k), Group(b', s.k, k'));
  }

  lemma GroupsDiffer(n: nat, b: nat, k: nat, b': nat, k': nat)
    requires (b', k') != (b, k) && k < n && k' < n
    ensures Group(b, n, k) != Group(b', n, k')
  {
    if b != b' {
      RowsApart(n, b, b');
    }
  }

  // ---------------------------------------------------------------- by coordinates

  function SpatialIndex(s: Shape, o: Place): nat { (o.d * s.h.outs + o.h) * s.w.outs + o.w }

  /** Every place is the place of its flat index. */
  lemma PlaceOfIndex(s: Shape, o: Place)
    requires PlaceInside(s, o)
    ensures SpatialIndex(s, o) < Spatial(s) && s.h.outs > 0 && s.w.outs > 0 && s.h.outs * s.w.outs > 0
    ensures PlaceOf(s, o.b, o.k, SpatialIndex(s, o)) == o
  {
    var H, W, n := s.h.outs, s.w.outs, s.h.outs * s.w.outs;
    var m, row, p := o.h * W + o.w, o.d * H + o.h, SpatialIndex(s, o);
    SplitIndex(s.d.outs, H, W, o.d, o.h, o.w);
    hide Quotient, Remainder, SpatialIndex, Spatial;
    UniqueParts(p, n, o.d, m);
    UniqueParts(p, W, row, o.w);
    UniqueParts(row, H, o.d, o.h);
  }

  /** The flat index by planes and by rows. */
  lemma SplitIndex(D: nat, H: nat, W: nat, d: nat, h: nat, w: nat)
    requires d < D && h < H && w < W
    ensures h * W + w < H * W && (d * H + h) * W + w == d * (H * W) + (h * W + w) < D * H * W
  {
    var n, m := H * W, h * W + w;
    IndexBelow(W, h, H, w);
    IndexBelow(n, d, D, m);
    MulTwice(D, H, W);
    MulTwice(d, H, W);
    MulAdd(d * H, h, W);
  }

  lemma MulTwice(a: nat, b: nat, c: nat)
    ensures a * b * c == a * (b * c)
  {
  }

  lemma MulAdd(a: nat, b: nat, c: nat)
    ensures (a + b) * c == a * c + b * c
  {
  }

  lemma IndexBelow(n: nat, i: nat, count: nat, r: nat)
    requires i < count && r < n
    ensures i * n + r < count * n
  {
    MulMonotone(n, i + 1, count);
    assert n * (i + 1) == i * n + n && n * count == count * n;
  }

  lemma UniqueParts(p: nat, n: nat, q: nat, r: nat)
    requires n > 0 && p == q * n + r && r < n
    ensures Quotient(p, n) == q && Remainder(p, n) == r
  {
    assert q * n == n * q;
    DivModUnique(p, n, q, r);
  }

  lemma CellWrittenOut(s: Shape, o: Place)
    ensures Cell(s, o) == ((o.b * s.k + o.k) * s.d.outs + o.d) * s.h.outs * s.w.outs + o.h * s.w.outs + o.w
  {
  }

  /** After the dispatch the NKDHW cell of a place holds its 3D convolution. */
  lemma Conv3dCell(s: Shape, x: seq<real>, w: seq<real>, alpha: real, o: Place, y: seq<real>)
    requires PlaceInside(s, o) && RowDone(s, x, w, alpha, o.b, o.k, y, Spatial(s))
    ensures Cell(s, o) == ((o.b * s.k + o.k) * s.d.outs + o.d) * s.h.outs * s.w.outs + o.h * s.w.outs + o.w
    ensures 0 <= Cell(s, o) < |y| && y[Cell(s, o)] == Conv3(s, x, w, alpha, o)
  {
    var p := SpatialIndex(s, o);
    CellWrittenOut(s, o);
    hide Base, Group, Spatial, PlaceOf, Cell, SpatialIndex, Conv3;
    PlaceOfIndex(s, o);
    CellOfPlace(s, o.b, o.k, p);
    assert y[Base(Group(o.b, s.k, o.k), Spatial(s)) + p] == Value(s, x, w, alpha, o.b, o.k, p);
  }

  /** conv2d: the NCHW cell holds the 2D convolution. */
  lemma Conv2dCell(n: nat, c: nat, k: nat, h: Axis, v: Axis, x: seq<real>, w: seq<real>, alpha: real,
                   b: nat, ok: nat, oh: nat, ow: nat, y: seq<real>)
    requires oh < h.outs && ow < v.outs
    requires var s := Shape(n, c, k, UNIT, h, v); RowDone(s, x, w, alpha, b, ok, y, Spatial(s))
    ensures var s, cell := Shape(n, c, k, UNIT, h, v), (b * k + ok) * h.outs * v.outs + oh * v.outs + ow;
            0 <= cell < |y| && y[cell] == Conv2(s, x, w, alpha, Place(b, ok, 0, oh, ow))
  {
    var s, o := Shape(n, c, k, UNIT, h, v), Place(b, ok, 0, oh, ow);
    assert Flat2(Group(b, k, ok), h.outs, oh, v.outs, ow) == (b * k + ok) * h.outs * v.outs + oh * v.outs + ow;
    hide RowDone, Spatial, Group, Flat2, Flat3, Conv2, Conv3;
    Conv3dCell(s, x, w, alpha, o, y);
    Conv2Is3(s, x, w, alpha, o);
    FlatUnit(Group(b, k, ok), h.outs, oh, v.outs, ow);
  }

  /** conv1d: the NCL cell holds the 1D convolution. */
  lemma Conv1dCell(n: nat, c: nat, k: nat, l: Axis, x: seq<real>, w: seq<real>, alpha: real,
                   b: nat, ok: nat, ol: nat, y: seq<real>)
    requires ol < l.outs
    requires var s := Shape(n, c, k, UNIT, UNIT, l); RowDone(s, x, w, alpha, b, ok, y, Spatial(s))
    ensures var s, cell := Shape(n, c, k, UNIT, UNIT, l), (b * k + ok) * l.outs + ol;
            0 <= cell < |y| && y[cell] == Conv1(s, x, w, alpha, Place(b, ok, 0, 0, ol))
  {
    var s, o := Shape(n, c, k, UNIT, UNIT, l), Place(b, ok, 0, 0, ol);
    assert Flat1(Group(b, k, ok), l.outs, ol) == (b * k + ok) * l.outs + ol;
    hide RowDone, Spatial, Group, Flat1, Flat2, Flat3, Conv1, Conv3;
    Conv3dCell(s, x, w, alpha, o, y);
    Conv1Is3(s, x, w, alpha, o);
    FlatUnit(Group(b, k, ok), 1, 0, l.outs, ol);
  }
}
