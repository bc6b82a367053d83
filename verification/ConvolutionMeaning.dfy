/**
 What a convolution is, by its response to one tap: with a single weight different from zero the
 output is that weight times one input element, at positions written out in the tensors' own layouts;
 and outputs add up over the weights.
 */
module ConvolutionMeaning {
  import opened Bits
  import opened Reals
  import opened Convolution

  // ---------------------------------------------------------------- coordinates

  /** The first tap of the first output is the padding below zero; one output on is one stride, one tap on is one
      dilation. */
  lemma CoordinateSteps(a: Axis, o: nat, f: nat)
    ensures Coordinate(a, 0, 0) == -(a.pad as int)
    ensures Coordinate(a, o + 1, f) == Coordinate(a, o, f) + a.stride
    ensures Coordinate(a, o, f + 1) == Coordinate(a, o, f) + a.dil
  {
    assert (o + 1) * a.stride == o * a.stride + a.stride && (f + 1) * a.dil == f * a.dil + a.dil;
  }

  // ---------------------------------------------------------------- different taps have different positions

  lemma SameParts(n: nat, q: nat, r: nat, q': nat, r': nat)
    requires r < n && r' < n && q * n + r == q' * n + r'
    ensures q == q' && r == r'
  {
    assert q * n == n * q && q' * n == n * q';
    DivModUnique(q * n + r, n, q, r);
    DivModUnique(q' * n + r', n, q', r');
  }

  lemma PlaneForm(p: nat, H: nat, W: nat, h: nat, w: nat)
    requires h < H && w < W
    ensures p * H * W + h * W + w == p * (H * W) + (h * W + w) && h * W + w < H * W
  {
    assert p * H * W == p * (H * W);
    MulMonotone(W, h + 1, H);
    assert W * (h + 1) == h * W + W && W * H == H * W;
  }

  lemma FlatParts(D: nat, H: nat, W: nat, g: nat, d: nat, h: nat, w: nat)
    requires h < H && w < W
    ensures Flat3(g, D, d, H, h, W, w) == Base(Base(g, D) + d, Base(H, W)) + (Base(h, W) + w)
    ensures Base(h, W) + w < Base(H, W)
  {
    PlaneForm(g * D + d, H, W, h, w);
  }

  lemma SameRows(n: nat, q: nat, r: nat, q': nat, r': nat)
    requires r < n && r' < n && Base(q, n) + r == Base(q', n) + r'
    ensures q == q' && r == r'
  {
    SameParts(n, q, r, q', r');
  }

  lemma FlatInjective(D: nat, H: nat, W: nat, g: nat, d: nat, h: nat, w: nat, g': nat, d': nat, h': nat, w': nat)
    requires d < D && h < H && w < W && d' < D && h' < H && w' < W
    requires Flat3(g, D, d, H, h, W, w) == Flat3(g', D, d', H, h', W, w')
    ensures g == g' && d == d' && h == h' && w == w'
  {
    hide Flat3, Base;
    FlatParts(D, H, W, g, d, h, w);
    FlatParts(D, H, W, g', d', h', w');
    SameRows(Base(H, W), Base(g, D) + d, Base(h, W) + w, Base(g', D) + d', Base(h', W) + w');
    SameRows(W, h, w, h', w');
    SameRows(D, g, d, g', d');
  }

  // ---------------------------------------------------------------- the response to one tap

  /** One weight: output channel, input channel, and position in the filter. */
  datatype Tap = Tap(k: nat, c: nat, d: nat, h: nat, w: nat)

  /** Its position in the KCDHW weights. */
  function TapPosition(s: Shape, t: Tap): nat {
    ((t.k * s.c + t.c) * s.d.taps + t.d) * s.h.taps * s.w.taps + t.h * s.w.taps + t.w
  }

  /** All weights are zero but the one at position p. */
  ghost predicate OnlyWeight(w: seq<real>, p: nat, v: real) {
    p < |w| && w[p] == v && forall i: nat :: i < |w| && i != p ==> w[i] == 0.0
  }

  ghost predicate OnlyTap(s: Shape, w: seq<real>, t: Tap, v: real) {
    t.c < s.c && t.d < s.d.taps && t.h < s.h.taps && t.w < s.w.taps && OnlyWeight(w, TapPosition(s, t), v)
  }

  /** The NCDHW input element that tap t of place o meets, or zero outside the input. */
  function MetBy(s: Shape, x: seq<real>, o: Place, t: Tap): real {
    var d := o.d * s.d.stride + t.d * s.d.dil - s.d.pad;
    var h := o.h * s.h.stride + t.h * s.h.dil - s.h.pad;
    var w := o.w * s.w.stride + t.w * s.w.dil - s.w.pad;
    var i := ((o.b * s.c + t.c) * s.d.size + d) * s.h.size * s.w.size + h * s.w.size + w;
    if 0 <= d < s.d.size && 0 <= h < s.h.size && 0 <= w < s.w.size && 0 <= i < |x| then x[i] else 0.0
  }

  lemma InputIsMet(s: Shape, x: seq<real>, o: Place, t: Tap)
    ensures Input3(s, x, o.b, t.c, Coordinate(s.d, o.d, t.d), Coordinate(s.h, o.h, t.h), Coordinate(s.w, o.w, t.w)) ==
            MetBy(s, x, o, t)
  {
  }

  lemma WeightOfTap(s: Shape, w: seq<real>, t: Tap, v: real, k: nat, c: nat, fd: nat, fh: nat, fw: nat)
    requires OnlyTap(s, w, t, v) && c < s.c && fd < s.d.taps && fh < s.h.taps && fw < s.w.taps
    ensures Weight3(s, w, k, c, fd, fh, fw) == if Tap(k, c, fd, fh, fw) == t then v else 0.0
  {
    TapIsFlat(s, t);
    hide TapPosition;
    var g, g' := Group(k, s.c, c), Group(t.k, s.c, t.c);
    if Flat3(g, s.d.taps, fd, s.h.taps, fh, s.w.taps, fw) == TapPosition(s, t) {
      FlatInjective(s.d.taps, s.h.taps, s.w.taps, g, fd, fh, fw, g', t.d, t.h, t.w);
      SameParts(s.c, k, c, t.k, t.c);
    }
    hide Flat3, Group;
  }

  lemma TapIsFlat(s: Shape, t: Tap)
    ensures TapPosition(s, t) == Flat3(Group(t.k, s.c, t.c), s.d.taps, t.d, s.h.taps, t.h, s.w.taps, t.w)
  {
  }

  lemma TermOfTap(s: Shape, x: seq<real>, w: seq<real>, o: Place, t: Tap, v: real, c: nat, fd: nat, fh: nat, fw: nat)
    requires OnlyTap(s, w, t, v) && c < s.c && fd < s.d.taps && fh < s.h.taps && fw < s.w.taps
    ensures Term3(s, x, w, o, c, fd, fh, fw) ==
            if Tap(o.k, c, fd, fh, fw) == t then Times(MetBy(s, x, o, t), v) else 0.0
  {
    hide OnlyTap, Weight3, Input3, Coordinate, MetBy;
    WeightOfTap(s, w, t, v, o.k, c, fd, fh, fw);
    InputIsMet(s, x, o, t);
  }

  lemma {:induction false} RowOfTap(s: Shape, x: seq<real>, w: seq<real>, o: Place, t: Tap, v: real,
                                    c: nat, fd: nat, fh: nat, m: nat)
    requires OnlyTap(s, w, t, v) && c < s.c && fd < s.d.taps && fh < s.h.taps && m <= s.w.taps
    ensures OverW(s, x, w, o, c, fd, fh, m) ==
            if (o.k, c, fd, fh) == (t.k, t.c, t.d, t.h) && t.w < m then Times(MetBy(s, x, o, t), v) else 0.0
  {
    hide OnlyTap, Term3, MetBy, Times;
    if m > 0 {
      RowOfTap(s, x, w, o, t, v, c, fd, fh, m - 1);
      TermOfTap(s, x, w, o, t, v, c, fd, fh, m - 1);
    }
  }

  lemma {:induction false} PlaneOfTap(s: Shape, x: seq<real>, w: seq<real>, o: Place, t: Tap, v: real,
                                      c: nat, fd: nat, m: nat)
    requires OnlyTap(s, w, t, v) && c < s.c && fd < s.d.taps && m <= s.h.taps
    ensures OverH(s, x, w, o, c, fd, m) ==
            if (o.k, c, fd) == (t.k, t.c, t.d) && t.h < m then Times(MetBy(s, x, o, t), v) else 0.0
  {
    hide OnlyTap, OverW, MetBy, Times;
    TapInside(s, w, t, v);
    if m > 0 {
      PlaneOfTap(s, x, w, o, t, v, c, fd, m - 1);
      RowOfTap(s, x, w, o, t, v, c, fd, m - 1, s.w.taps);
    }
  }

  lemma TapInside(s: Shape, w: seq<real>, t: Tap, v: real)
    requires OnlyTap(s, w, t, v)
    ensures t.c < s.c && t.d < s.d.taps && t.h < s.h.taps && t.w < s.w.taps
  {
  }

  lemma {:induction false} FilterOfTap(s: Shape, x: seq<real>, w: seq<real>, o: Place, t: Tap, v: real,
                                       c: nat, m: nat)
    requires OnlyTap(s, w, t, v) && c < s.c && m <= s.d.taps
    ensures OverD(s, x, w, o, c, m) ==
            if (o.k, c) == (t.k, t.c) && t.d < m then Times(MetBy(s, x, o, t), v) else 0.0
  {
    TapInside(s, w, t, v);
    hide OnlyTap, OverH, MetBy, Times;
    if m > 0 {
      FilterOfTap(s, x, w, o, t, v, c, m - 1);
      PlaneOfTap(s, x, w, o, t, v, c, m - 1, s.h.taps);
    }
  }

  lemma {:induction false} ChannelsOfTap(s: Shape, x: seq<real>, w: seq<real>, o: Place, t: Tap, v: real, m: nat)
    requires OnlyTap(s, w, t, v) && m <= s.c
    ensures OverC(s, x, w, o, m) == if o.k == t.k && t.c < m then Times(MetBy(s, x, o, t), v) else 0.0
  {
    TapInside(s, w, t, v);
    hide OnlyTap, OverD, MetBy, Times;
    if m > 0 {
      ChannelsOfTap(s, x, w, o, t, v, m - 1);
      FilterOfTap(s, x, w, o, t, v, m - 1, s.d.taps);
    }
  }

  /** With a single weight v, at tap t, the output at a place of that channel is alpha times v times the element the
      tap meets; other channels are zero. */
  lemma TapResponse(s: Shape, x: seq<real>, w: seq<real>, alpha: real, o: Place, t: Tap, v: real)
    requires OnlyTap(s, w, t, v)
    ensures Conv3(s, x, w, alpha, o) == if o.k == t.k then alpha * (MetBy(s, x, o, t) * v) else 0.0
  {
    TapInside(s, w, t, v);
    hide OnlyTap, OverC, MetBy;
    ChannelsOfTap(s, x, w, o, t, v, s.c);
  }

  // ---------------------------------------------------------------- outputs add up over the weights

  ghost predicate SumOfWeights(w: seq<real>, u: seq<real>, v: seq<real>) {
    |w| == |u| == |v| && forall i: nat :: i < |w| ==> w[i] == u[i] + v[i]
  }

  lemma TermAdds(s: Shape, x: seq<real>, w: seq<real>, u: seq<real>, v: seq<real>, o: Place,
                 c: nat, fd: nat, fh: nat, fw: nat)
    requires SumOfWeights(w, u, v)
    ensures Term3(s, x, w, o, c, fd, fh, fw) == Term3(s, x, u, o, c, fd, fh, fw) + Term3(s, x, v, o, c, fd, fh, fw)
  {
    hide Flat3, Input3, Coordinate, Group;
    var i := Flat3(Group(o.k, s.c, c), s.d.taps, fd, s.h.taps, fh, s.w.taps, fw);
    var y := Input3(s, x, o.b, c, Coordinate(s.d, o.d, fd), Coordinate(s.h, o.h, fh), Coordinate(s.w, o.w, fw));
    TimesAdds(y, Get(u, i), Get(v, i));
  }

  lemma TimesAdds(y: real, a: real, b: real)
    ensures Times(y, a + b) == Times(y, a) + Times(y, b)
  {
  }

  lemma {:induction false} OverWAdds(s: Shape, x: seq<real>, w: seq<real>, u: seq<real>, v: seq<real>, o: Place,
                                     c: nat, fd: nat, fh: nat, m: nat)
    requires SumOfWeights(w, u, v)
    ensures OverW(s, x, w, o, c, fd, fh, m) == OverW(s, x, u, o, c, fd, fh, m) + OverW(s, x, v, o, c, fd, fh, m)
  {
    hide Term3, SumOfWeights;
    if m > 0 {
      OverWAdds(s, x, w, u, v, o, c, fd, fh, m - 1);
      TermAdds(s, x, w, u, v, o, c, fd, fh, m - 1);
    }
  }

  lemma {:induction false} OverHAdds(s: Shape, x: seq<real>, w: seq<real>, u: seq<real>, v: seq<real>, o: Place,
                                     c: nat, fd: nat, m: nat)
    requires SumOfWeights(w, u, v)
    ensures OverH(s, x, w, o, c, fd, m) == OverH(s, x, u, o, c, fd, m) + OverH(s, x, v, o, c, fd, m)
  {
    hide OverW, SumOfWeights;
    if m > 0 {
      OverHAdds(s, x, w, u, v, o, c, fd, m - 1);
      OverWAdds(s, x, w, u, v, o, c, fd, m - 1, s.w.taps);
    }
  }

  lemma {:induction false} OverDAdds(s: Shape, x: seq<real>, w: seq<real>, u: seq<real>, v: seq<real>, o: Place,
                                     c: nat, m: nat)
    requires SumOfWeights(w, u, v)
    ensures OverD(s, x, w, o, c, m) == OverD(s, x, u, o, c, m) + OverD(s, x, v, o, c, m)
  {
    hide OverH, SumOfWeights;
    if m > 0 {
      OverDAdds(s, x, w, u, v, o, c, m - 1);
      OverHAdds(s, x, w, u, v, o, c, m - 1, s.h.taps);
    }
  }

  lemma {:induction false} OverCAdds(s: Shape, x: seq<real>, w: seq<real>, u: seq<real>, v: seq<real>, o: Place, m: nat)
    requires SumOfWeights(w, u, v)
    ensures OverC(s, x, w, o, m) == OverC(s, x, u, o, m) + OverC(s, x, v, o, m)
  {
    hide OverD, SumOfWeights;
    if m > 0 {
      OverCAdds(s, x, w, u, v, o, m - 1);
      OverDAdds(s, x, w, u, v, o, m - 1, s.d.taps);
    }
  }

  /** Outputs add up over the weights, so the responses to single taps determine the convolution. */
  lemma ConvolutionAdds(s: Shape, x: seq<real>, w: seq<real>, u: seq<real>, v: seq<real>, alpha: real, o: Place)
    requires SumOfWeights(w, u, v)
    ensures Conv3(s, x, w, alpha, o) == Conv3(s, x, u, alpha, o) + Conv3(s, x, v, alpha, o)
  {
    hide OverC, SumOfWeights;
    OverCAdds(s, x, w, u, v, o, s.c);
    TimesAdds(alpha, OverC(s, x, u, o, s.c), OverC(s, x, v, o, s.c));
  }

  // ---------------------------------------------------------------- two and one dimensions

  /** KCHW weights and NCHW input. */
  function TapPosition2(s: Shape, t: Tap): nat {
    (t.k * s.c + t.c) * s.h.taps * s.w.taps + t.h * s.w.taps + t.w
  }

  function MetBy2(s: Shape, x: seq<real>, o: Place, t: Tap): real {
    var h := o.h * s.h.stride + t.h * s.h.dil - s.h.pad;
    var w := o.w * s.w.stride + t.w * s.w.dil - s.w.pad;
    var i := (o.b * s.c + t.c) * s.h.size * s.w.size + h * s.w.size + w;
    if 0 <= h < s.h.size && 0 <= w < s.w.size && 0 <= i < |x| then x[i] else 0.0
  }

  /** KCL weights and NCL input. */
  function TapPosition1(s: Shape, t: Tap): nat { (t.k * s.c + t.c) * s.w.taps + t.w }

  function MetBy1(s: Shape, x: seq<real>, o: Place, t: Tap): real {
    var w := o.w * s.w.stride + t.w * s.w.dil - s.w.pad;
    var i := (o.b * s.c + t.c) * s.w.size + w;
    if 0 <= w < s.w.size && 0 <= i < |x| then x[i] else 0.0
  }

  lemma UnitDepth(s: Shape, x: seq<real>, o: Place, t: Tap)
    requires s.d == UNIT && o.d == 0 && t.d == 0
    ensures TapPosition(s, t) == TapPosition2(s, t) && MetBy(s, x, o, t) == MetBy2(s, x, o, t)
  {
    assert (t.k * s.c + t.c) * 1 + 0 == t.k * s.c + t.c && (o.b * s.c + t.c) * 1 + 0 == o.b * s.c + t.c;
  }

  lemma UnitHeight(s: Shape, x: seq<real>, o: Place, t: Tap)
    requires s.h == UNIT && o.h == 0 && t.h == 0
    ensures TapPosition2(s, t) == TapPosition1(s, t) && MetBy2(s, x, o, t) == MetBy1(s, x, o, t)
  {
    assert (t.k * s.c + t.c) * 1 == t.k * s.c + t.c && (o.b * s.c + t.c) * 1 == o.b * s.c + t.c;
  }

  /** conv2d: the same with its own layouts. */
  lemma TapResponse2(s: Shape, x: seq<real>, w: seq<real>, alpha: real, o: Place, t: Tap, v: real)
    requires s.d == UNIT && o.d == 0 && t.d == 0
    requires t.c < s.c && t.h < s.h.taps && t.w < s.w.taps && OnlyWeight(w, TapPosition2(s, t), v)
    ensures Conv2(s, x, w, alpha, o) == if o.k == t.k then alpha * (MetBy2(s, x, o, t) * v) else 0.0
  {
    hide Conv2, Conv3, MetBy, MetBy2, TapPosition, TapPosition2, OnlyWeight;
    UnitDepth(s, x, o, t);
    Conv2Is3(s, x, w, alpha, o);
    TapResponse(s, x, w, alpha, o, t, v);
  }

  /** conv1d. */
  lemma TapResponse1(s: Shape, x: seq<real>, w: seq<real>, alpha: real, o: Place, t: Tap, v: real)
    requires s.d == UNIT && s.h == UNIT && o.d == 0 && o.h == 0 && t.d == 0 && t.h == 0
    requires t.c < s.c && t.w < s.w.taps && OnlyWeight(w, TapPosition1(s, t), v)
    ensures Conv1(s, x, w, alpha, o) == if o.k == t.k then alpha * (MetBy1(s, x, o, t) * v) else 0.0
  {
    hide Conv1, Conv2, Conv3, MetBy1, MetBy2, TapPosition1, TapPosition2, OnlyWeight;
    UnitHeight(s, x, o, t);
    Conv1Is3(s, x, w, alpha, o);
    Conv2Is3(s, x, w, alpha, o);
    TapResponse2(s, x, w, alpha, o, t, v);
  }
}
