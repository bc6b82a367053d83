/**
 The index of the entry of largest magnitude: the same two stages over (magnitude, index) pairs, two
 words per pair in the result buffer, and a strict comparison in the final pass.
 */
module Amax {
  import opened Algebra
  import opened Bits
  import opened Reals
  import opened Reductions

  type Magnitude = r: real | r >= 0.0

  /** Nothing is what a thread without elements starts from, the pair (-1e30, 0). */
  datatype Candidate = Nothing | Found(value: Magnitude, index: nat)
  {
    function Value(): real { if Nothing? then -1e30 else value }

    function Index(): nat { if Nothing? then 0 else index }
  }

  /** The larger magnitude; of equals, the lower index. */
  function Better(a: Candidate, b: Candidate): Candidate {
    if b.Value() > a.Value() || (b.Value() == a.Value() && b.Index() < a.Index()) then b else a
  }

  const BEST: Monoid<Candidate> := Monoid(Nothing, Better)

  lemma BestIsMonoid()
    ensures IsCommutativeMonoid(BEST)
  {
    forall a: Candidate, b: Candidate, c: Candidate ensures OpAssocAt(BEST, a, b, c) {
    }
    forall a: Candidate, b: Candidate ensures OpCommAt(BEST, a, b) {
    }
    forall a: Candidate ensures OpUnitAt(BEST, a) {
    }
  }

  function Magnitudes(x: nat -> real): nat -> Candidate {
    (i: nat) => Found(Abs(x(i)), i)
  }

  /** Entry `at` has the largest magnitude, and no earlier entry has it. */
  ghost predicate IsFirstMaximum(x: nat -> real, n: nat, at: nat) {
    && at < n
    && (forall j: nat :: j < n ==> Abs(x(j)) <= Abs(x(at)))
    && (forall j: nat :: j < at ==> Abs(x(j)) < Abs(x(at)))
  }

  /** The fold finds the first position of the maximum. */
  lemma {:induction false} FoldIsFirstMaximum(x: nat -> real, n: nat)
    requires n > 0
    ensures var best := Sum(BEST, Magnitudes(x), n);
            best.Found? && IsFirstMaximum(x, n, best.index) && best.value == Abs(x(best.index))
  {
    if n > 1 {
      FoldIsFirstMaximum(x, n - 1);
    } else {
      BestIsMonoid();
      SumOne(BEST, Magnitudes(x));
    }
  }

  // ---------------------------------------------------------------- the words of the result buffer

  /** A 32-bit word as the index or the float it was written as. */
  datatype Word = IndexWord(i: nat) | FloatWord(v: real)

  predicate HoldsPair(data: seq<Word>, g: nat, c: Candidate) {
    2 * g + 1 < |data| && data[2 * g] == IndexWord(c.Index()) && data[2 * g + 1] == FloatWord(c.Value())
  }

  method PartialGroup(x: nat -> real, n: nat, g: nat, data: array<Word>)
    requires 2 * g + 1 < data.Length
    modifies data
    ensures HoldsPair(data[..], g, Partial(BEST, Magnitudes(x), n, g))
    ensures forall p: nat :: p < data.Length && p != 2 * g && p != 2 * g + 1 ==> data[p] == old(data[p])
  {
    hide IsCommutativeMonoid, Sum;
    BestIsMonoid();
    var shared := new Candidate[WIDTH](_ => Nothing);
    ghost var f := Magnitudes(x);
    for tid := 0 to WIDTH
      invariant data[..] == old(data[..])
      invariant forall t: nat :: t < tid ==> shared[t] == Segment(BEST, f, n, g)(t)
    {
      var idx := g * WIDTH + tid;
      var best: Candidate := Nothing;
      if idx < n {
        best := Found(Abs(x(idx)), idx);
      }
      assert best == Padded(BEST, f, n)(idx);
      assert Segment(BEST, f, n, g)(tid) == Padded(BEST, f, n)(g * WIDTH + tid);
      shared[tid] := best;
    }
    SumCongruent(BEST, Cells(shared[..], BEST.unit), Segment(BEST, f, n, g), WIDTH);
    Tree(BEST, shared);
    data[2 * g] := IndexWord(shared[0].Index());
    data[2 * g + 1] := FloatWord(shared[0].Value());
  }

  method PartialStage(x: nat -> real, n: nat, groups: nat, order: seq<nat>, data: array<Word>)
    requires 2 * groups <= data.Length && forall g: nat :: g in order <==> g < groups
    modifies data
    ensures forall g: nat :: g < groups ==> HoldsPair(data[..], g, Partial(BEST, Magnitudes(x), n, g))
    ensures forall p: nat :: 2 * groups <= p < data.Length ==> data[p] == old(data[p])
  {
    hide Partial;
    for i := 0 to |order|
      invariant forall g: nat :: g in order[..i] ==>
                  g < groups && HoldsPair(data[..], g, Partial(BEST, Magnitudes(x), n, g))
      invariant forall p: nat :: 2 * groups <= p < data.Length ==> data[p] == old(data[p])
    {
      assert order[i] in order;
      PartialGroup(x, n, order[i], data);
      assert order[..i + 1] == order[..i] + [order[i]];
    }
    assert order[..|order|] == order;
  }

  // ---------------------------------------------------------------- the final pass

  /** Pairs whose indices never decrease, as the partials of consecutive segments are. */
  ghost predicate Ordered(p: nat -> Candidate, count: nat) {
    forall i: nat, j: nat :: i < j < count ==> p(i).Index() <= p(j).Index()
  }

  /** A thread keeps its pair unless the next one is strictly larger. */
  method Collect(data: array<Word>, ghost p: nat -> Candidate, count: nat, tid: nat) returns (best: Candidate)
    requires 2 * count <= data.Length && tid < WIDTH && Ordered(p, count)
    requires forall g: nat :: g < count ==> HoldsPair(data[..], g, p(g))
    ensures best == Sum(BEST, Strided(BEST, Padded(BEST, p, count), tid), Rounds(count))
  {
    hide IsCommutativeMonoid, Rounds, Pow2, Strided, Padded, Sum, HoldsPair, Ordered;
    ghost var f := Strided(BEST, Padded(BEST, p, count), tid);
    best := Nothing;
    SumStep(f, 0);
    var i := tid;
    ghost var j := 0;
    while i < count
      invariant i == j * WIDTH + tid && j <= Rounds(count)
      invariant best == Sum(BEST, f, j)
      invariant best == Nothing || exists q: nat :: q < i && q < count && best == p(q)
    {
      StridedAt(p, count, tid, j);
      PairAt(data[..], i, p(i));
      IndicesGrow(p, count, best, i);
      SumStep(f, j);
      var idx, v := data[2 * i].i, data[2 * i + 1].v;
      if v > best.Value() {
        best := Found(v, idx);
      }
      i := i + WIDTH;
      j := j + 1;
    }
    BestIsMonoid();
    forall k: nat | j <= k < Rounds(count) ensures f(k) == BEST.unit {
      StridedAt(p, count, tid, k);
    }
    RestIsUnit(BEST, f, j, Rounds(count));
  }

  /** Element k of a thread's share. */
  lemma StridedAt(p: nat -> Candidate, count: nat, tid: nat, k: nat)
    ensures Strided(BEST, Padded(BEST, p, count), tid)(k) ==
            if k * WIDTH + tid < count then p(k * WIDTH + tid) else BEST.unit
  {
  }

  lemma PairAt(data: seq<Word>, g: nat, c: Candidate)
    requires HoldsPair(data, g, c)
    ensures 2 * g + 1 < |data| && data[2 * g] == IndexWord(c.Index()) && data[2 * g + 1] == FloatWord(c.Value())
  {
  }

  /** What was kept comes from an earlier pair, so its index is not larger. */
  lemma IndicesGrow(p: nat -> Candidate, count: nat, best: Candidate, i: nat)
    requires Ordered(p, count) && i < count
    requires best == Nothing || exists q: nat :: q < i && q < count && best == p(q)
    ensures best.Index() <= p(i).Index()
  {
  }

  lemma SumStep(f: nat -> Candidate, j: nat)
    ensures Sum(BEST, f, 0) == Nothing && Sum(BEST, f, j + 1) == Better(Sum(BEST, f, j), f(j))
  {
  }

  method Finalize(data: array<Word>, ghost p: nat -> Candidate, count: nat, toFloat: nat -> real)
    requires 0 < count && 2 * count <= data.Length && Ordered(p, count)
    requires forall g: nat :: g < count ==> HoldsPair(data[..], g, p(g))
    modifies data
    ensures data[0] == FloatWord(toFloat(Sum(BEST, p, count).Index()))
    ensures forall q: nat :: 0 < q < data.Length ==> data[q] == old(data[q])
  {
    hide IsCommutativeMonoid, Sum, Ordered, HoldsPair;
    BestIsMonoid();
    var shared := new Candidate[WIDTH](_ => Nothing);
    for tid := 0 to WIDTH
      invariant data[..] == old(data[..])
      invariant forall t: nat :: t < tid ==> shared[t] == Collected(BEST, p, count)(t)
    {
      var best := Collect(data, p, count, tid);
      shared[tid] := best;
    }
    SumCongruent(BEST, Cells(shared[..], BEST.unit), Collected(BEST, p, count), WIDTH);
    StridesCover(BEST, p, count);
    Tree(BEST, shared);
    data[0] := FloatWord(toFloat(shared[0].Index()));
  }

  /** The pair of a workgroup with elements has its index inside the workgroup's segment. */
  lemma {:induction false} PartialIndex(x: nat -> real, n: nat, g: nat, k: nat)
    requires 0 < k && g * WIDTH < n
    ensures var best := Sum(BEST, Segment(BEST, Magnitudes(x), n, g), k);
            best.Found? && g * WIDTH <= best.index < g * WIDTH + k
  {
    var s := Segment(BEST, Magnitudes(x), n, g);
    assert s(k - 1) == Padded(BEST, Magnitudes(x), n)(g * WIDTH + (k - 1));
    if k > 1 {
      PartialIndex(x, n, g, k - 1);
    } else {
      BestIsMonoid();
      SumOne(BEST, s);
    }
  }

  lemma PartialsOrdered(x: nat -> real, n: nat, p: nat -> Candidate)
    requires n > 0 && forall g: nat :: g < Groups(n) ==> p(g) == Partial(BEST, Magnitudes(x), n, g)
    ensures Ordered(p, Groups(n))
  {
    forall i: nat, j: nat | i < j < Groups(n) ensures p(i).Index() <= p(j).Index() {
      PartialIndex(x, n, i, WIDTH);
      PartialIndex(x, n, j, WIDTH);
    }
  }

  ghost predicate SameFrom(start: nat, a: seq<Word>, b: seq<Word>) {
    |a| == |b| && forall p: nat :: start <= p < |a| ==> a[p] == b[p]
  }

  /** Both stages: the first word becomes the converted index of the first entry of largest magnitude; no word
      beyond the pairs is written. */
  method FirstMaximum(x: nat -> real, n: int, order: seq<nat>, data: array<Word>, toFloat: nat -> real)
    returns (ghost at: nat)
    requires n > 0 ==> 2 * Groups(n) <= data.Length && forall g: nat :: g in order <==> g < Groups(n)
    modifies data
    ensures n <= 0 ==> data[..] == old(data[..])
    ensures n > 0 ==> IsFirstMaximum(x, n, at) && data[0] == FloatWord(toFloat(at))
    ensures n > 0 ==> SameFrom(2 * Groups(n), data[..], old(data[..]))
  {
    hide IsCommutativeMonoid, Sum, Partial, Ordered, HoldsPair, IsFirstMaximum;
    at := 0;
    if n <= 0 {
      return;
    }
    BestIsMonoid();
    PartialStage(x, n, Groups(n), order, data);
    ghost var p := (g: nat) => Partial(BEST, Magnitudes(x), n, g);
    PartialsOrdered(x, n, p);
    PartialsAddUp(BEST, Magnitudes(x), n, p);
    Finalize(data, p, Groups(n), toFloat);
    FoldIsFirstMaximum(x, n);
    at := Sum(BEST, Magnitudes(x), n).index;
  }

  // ---------------------------------------------------------------- the index as a float

  /** The naturals a 24-bit significand can hold. */
  ghost predicate Representable(i: nat) {
    exists k: nat :: Quotient(i, Pow2(k)) < 0x100_0000 && i == Quotient(i, Pow2(k)) * Pow2(k)
  }

  /** Conversion to float in any rounding mode: exact where it can be, and always a value a float can hold. */
  ghost predicate IsConversion(toFloat: nat -> real) {
    forall i: nat :: ConvertsTo(i, toFloat(i))
  }

  ghost predicate ConvertsTo(i: nat, v: real) {
    exists j: nat :: Representable(j) && v == j as real && (Representable(i) ==> j == i)
  }

  lemma SmallRepresentable(i: nat)
    requires i <= 0x100_0000
    ensures Representable(i)
  {
    if i < 0x100_0000 {
      assert Pow2(0) == 1 && Quotient(i, 1) == i;
    } else {
      assert Pow2(1) == 2 && Quotient(i, 2) == 0x80_0000;
    }
  }

  lemma FirstUnrepresentable()
    ensures !Representable(0x100_0001)
  {
    if Representable(0x100_0001) {
      var i: nat := 0x100_0001;
      var k: nat :| Quotient(i, Pow2(k)) < 0x100_0000 && i == Quotient(i, Pow2(k)) * Pow2(k);
      EvenMultiple(Quotient(i, Pow2(k)), k);
    }
  }

  lemma EvenMultiple(a: nat, k: nat)
    ensures a * Pow2(k) % 2 == if k > 0 then 0 else a % 2
    ensures k == 0 ==> a * Pow2(k) == a
  {
    if k == 0 {
      assert Pow2(k) == 1;
    } else {
      EvenProduct(a, Pow2(k - 1), Pow2(k));
    }
    hide Pow2;
  }

  lemma EvenProduct(a: nat, h: nat, p: nat)
    requires p == 2 * h
    ensures a * p % 2 == 0
  {
    MulDouble(a, h);
  }

  /** The stored index is exact for every vector of n entries exactly when n is at most 2^24 + 1. */
  lemma IndexExactUpTo(n: nat, toFloat: nat -> real)
    requires IsConversion(toFloat)
    ensures (forall i: nat :: i < n ==> toFloat(i) == i as real) <==> n <= 0x100_0001
  {
    if n <= 0x100_0001 {
      forall i: nat | i < n ensures toFloat(i) == i as real {
        SmallRepresentable(i);
        assert ConvertsTo(i, toFloat(i));
      }
    } else {
      var i: nat := 0x100_0001;
      assert ConvertsTo(i, toFloat(i));
      FirstUnrepresentable();
      assert toFloat(i) != i as real;
    }
  }
}
