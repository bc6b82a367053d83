/**
 The two-stage reductions: every workgroup folds 256 elements in a tree and leaves one partial in the
 result buffer; one more workgroup folds the partials, striding over them, and leaves the result in
 the first cell. Elements and partials come from any commutative monoid.
 */
module Reductions {
  import opened Algebra
  import opened Bits

  const WIDTH: nat := 256

  /** Number of workgroups for n elements. */
  function Groups(n: nat): (g: nat)
  {
    var g := (n + WIDTH - 1) / WIDTH;
    if g != 0 then g else 1
  }

  /** The workgroups cover the elements, and for a non-empty vector none of them is empty. */
  lemma GroupsCover(n: nat)
    ensures n <= Groups(n) * WIDTH
    ensures n > 0 ==> (Groups(n) - 1) * WIDTH < n
    ensures n == 0 ==> Groups(n) == 1
  {
  }

  function Cells<T(!new)>(s: seq<T>, other: T): nat -> T {
    (i: nat) => if i < |s| then s[i] else other
  }

  // ---------------------------------------------------------------- the tree

  /** One halving step adds cell t + h to cell t, for all t below h. */
  lemma HalfStep<T(!new)>(m: Monoid<T>, f: nat -> T, g: nat -> T, h: nat)
    requires IsCommutativeMonoid(m)
    requires forall t: nat :: t < h ==> g(t) == m.op(f(t), f(h + t))
    ensures Sum(m, g, h) == Sum(m, f, 2 * h)
  {
    hide IsCommutativeMonoid, Sum;
    var high := (t: nat) => f(h + t);
    assert 2 * h == h + h;
    SumAppend(m, f, h, h);
    SumPointwise(m, f, high, h);
    SumCongruent(m, g, (t: nat) => m.op(f(t), high(t)), h);
  }

  /** The barrier-separated halving loop of one workgroup over shared memory. */
  method Tree<T(!new)>(m: Monoid<T>, shared: array<T>)
    requires IsCommutativeMonoid(m) && shared.Length == WIDTH
    modifies shared
    ensures shared[0] == Sum(m, Cells(old(shared[..]), m.unit), WIDTH)
  {
    hide IsCommutativeMonoid, Sum;
    var s := WIDTH / 2;
    ghost var k := 8;
    assert Pow2(8) == 256;
    while s > 0
      invariant 0 <= k <= 8 && s == Pow2(k) / 2 && Pow2(k) <= WIDTH
      invariant Sum(m, Cells(shared[..], m.unit), Pow2(k)) == Sum(m, Cells(old(shared[..]), m.unit), WIDTH)
      decreases s
    {
      assert k > 0 && Pow2(k) == 2 * Pow2(k - 1);
      ghost var before := shared[..];
      forall t | 0 <= t < s {
        shared[t] := m.op(shared[t], shared[t + s]);
      }
      HalfStep(m, Cells(before, m.unit), Cells(shared[..], m.unit), s);
      k := k - 1;
      s := s / 2;
    }
    assert k == 0;
    SumOne(m, Cells(shared[..], m.unit));
  }

  // ---------------------------------------------------------------- stage one

  /** The elements, padded with the unit from n on. */
  function Padded<T(!new)>(m: Monoid<T>, f: nat -> T, n: nat): nat -> T {
    (i: nat) => if i < n then f(i) else m.unit
  }

  /** What the threads of workgroup g load: 256 consecutive padded elements. */
  function Segment<T(!new)>(m: Monoid<T>, f: nat -> T, n: nat, g: nat): nat -> T {
    (t: nat) => Padded(m, f, n)(g * WIDTH + t)
  }

  function Partial<T(!new)>(m: Monoid<T>, f: nat -> T, n: nat, g: nat): T {
    Sum(m, Segment(m, f, n, g), WIDTH)
  }

  method PartialGroup<T(!new)>(m: Monoid<T>, f: nat -> T, n: nat, g: nat, data: array<T>)
    requires IsCommutativeMonoid(m) && g < data.Length
    modifies data
    ensures data[..] == old(data[..])[g := Partial(m, f, n, g)]
  {
    hide IsCommutativeMonoid, Sum;
    var shared := new T[WIDTH](_ => m.unit);
    for tid := 0 to WIDTH
      invariant data[..] == old(data[..])
      invariant forall t: nat :: t < tid ==> shared[t] == Segment(m, f, n, g)(t)
    {
      var idx := g * WIDTH + tid;
      var acc := m.unit;
      if idx < n {
        acc := f(idx);
      }
      assert acc == Padded(m, f, n)(idx);
      assert Segment(m, f, n, g)(tid) == Padded(m, f, n)(g * WIDTH + tid);
      assert acc == Segment(m, f, n, g)(tid);
      shared[tid] := acc;
    }
    SumCongruent(m, Cells(shared[..], m.unit), Segment(m, f, n, g), WIDTH);
    Tree(m, shared);
    data[g] := shared[0];
  }

  /** All workgroups of stage one, in any order in which each of them occurs. */
  method PartialStage<T(!new)>(m: Monoid<T>, f: nat -> T, n: nat, groups: nat, order: seq<nat>, data: array<T>)
    requires IsCommutativeMonoid(m) && groups <= data.Length
    requires forall g: nat :: g in order <==> g < groups
    modifies data
    ensures forall g: nat :: g < groups ==> data[g] == Partial(m, f, n, g)
    ensures forall p: nat :: groups <= p < data.Length ==> data[p] == old(data[p])
  {
    hide IsCommutativeMonoid, Partial;
    for i := 0 to |order|
      invariant forall g: nat :: g in order[..i] ==> g < groups && data[g] == Partial(m, f, n, g)
      invariant forall p: nat :: groups <= p < data.Length ==> data[p] == old(data[p])
    {
      assert order[i] in order;
      PartialGroup(m, f, n, order[i], data);
      assert order[..i + 1] == order[..i] + [order[i]];
    }
    assert order[..|order|] == order;
  }

  // ---------------------------------------------------------------- stage two

  /** What thread t collects on its way through the partials. */
  function Strided<T(!new)>(m: Monoid<T>, p: nat -> T, t: nat): nat -> T {
    (j: nat) => p(j * WIDTH + t)
  }

  /** What every thread ends with. */
  function Collected<T(!new)>(m: Monoid<T>, p: nat -> T, count: nat): nat -> T {
    (t: nat) => Sum(m, Strided(m, Padded(m, p, count), t), Rounds(count))
  }

  /** Number of rounds of WIDTH cells that cover `count` cells. */
  function Rounds(count: nat): (q: nat)
    ensures count <= q * WIDTH < count + WIDTH
  {
    (count + WIDTH - 1) / WIDTH
  }

  /** Thread t adds cells t, t + 256, ... below count. */
  method Collect<T(!new)>(m: Monoid<T>, data: array<T>, count: nat, tid: nat) returns (acc: T)
    requires IsCommutativeMonoid(m) && count <= data.Length && tid < WIDTH
    ensures acc == Sum(m, Strided(m, Padded(m, Cells(data[..], m.unit), count), tid), Rounds(count))
  {
    hide IsCommutativeMonoid;
    ghost var f := Strided(m, Padded(m, Cells(data[..], m.unit), count), tid);
    acc := m.unit;
    var i := tid;
    ghost var j := 0;
    while i < count
      invariant i == j * WIDTH + tid && j <= Rounds(count)
      invariant acc == Sum(m, f, j)
    {
      assert f(j) == data[i];
      acc := m.op(acc, data[i]);
      i := i + WIDTH;
      j := j + 1;
    }
    RestIsUnit(m, f, j, Rounds(count));
  }

  lemma {:induction false} RestIsUnit<T(!new)>(m: Monoid<T>, f: nat -> T, j: nat, q: nat)
    requires IsCommutativeMonoid(m) && j <= q
    requires forall i: nat :: j <= i < q ==> f(i) == m.unit
    ensures Sum(m, f, q) == Sum(m, f, j)
  {
    if j < q {
      RestIsUnit(m, f, j, q - 1);
      OpUnit(m, Sum(m, f, j));
    }
  }

  /** Fold the first `count` cells, apply `finish`, and leave the result in the first cell. */
  method Finalize<T(!new)>(m: Monoid<T>, data: array<T>, count: nat, finish: T -> T)
    requires IsCommutativeMonoid(m) && 0 < count <= data.Length
    modifies data
    ensures data[0] == finish(Sum(m, Cells(old(data[..]), m.unit), count))
    ensures forall p: nat :: 0 < p < data.Length ==> data[p] == old(data[p])
  {
    hide IsCommutativeMonoid, Sum;
    ghost var f := Cells(data[..], m.unit);
    var shared := new T[WIDTH](_ => m.unit);
    for tid := 0 to WIDTH
      invariant data[..] == old(data[..])
      invariant forall t: nat :: t < tid ==> shared[t] == Collected(m, f, count)(t)
    {
      var acc := Collect(m, data, count, tid);
      shared[tid] := acc;
    }
    SumCongruent(m, Cells(shared[..], m.unit), Collected(m, f, count), WIDTH);
    StridesCover(m, f, count);
    Tree(m, shared);
    data[0] := finish(shared[0]);
  }

  /** The threads' collections add up to the sum of all cells. */
  lemma StridesCover<T(!new)>(m: Monoid<T>, f: nat -> T, count: nat)
    requires IsCommutativeMonoid(m)
    ensures Sum(m, Collected(m, f, count), WIDTH) == Sum(m, f, count)
  {
    hide IsCommutativeMonoid, Sum;
    var q := Rounds(count);
    var p := Padded(m, f, count);
    var cell := (j: nat, t: nat) => p(j * WIDTH + t);
    SumBlocks(m, p, q, WIDTH);
    var rows := (j: nat) => Sum(m, (t: nat) => p(j * WIDTH + t), WIDTH);
    var columns := Collected(m, f, count);
    forall j: nat | j < q ensures rows(j) == Sum(m, Row(cell, j), WIDTH) {
      SumCongruent(m, (t: nat) => p(j * WIDTH + t), Row(cell, j), WIDTH);
    }
    forall t: nat | t < WIDTH ensures columns(t) == Sum(m, Column(cell, t), q) {
      SumCongruent(m, Strided(m, p, t), Column(cell, t), q);
    }
    SumSwapTo(m, cell, q, WIDTH, rows, columns);
    RestIsUnit(m, p, count, q * WIDTH);
    SumCongruent(m, p, f, count);
  }

  /** The partials of the workgroups add up to the sum of the elements. */
  lemma PartialsAddUp<T(!new)>(m: Monoid<T>, f: nat -> T, n: nat, data: nat -> T)
    requires IsCommutativeMonoid(m)
    requires forall g: nat :: g < Groups(n) ==> data(g) == Partial(m, f, n, g)
    ensures Sum(m, data, Groups(n)) == Sum(m, f, n)
  {
    hide IsCommutativeMonoid, Sum;
    var p := Padded(m, f, n);
    GroupsCover(n);
    SumBlocks(m, p, Groups(n), WIDTH);
    var blocks := (g: nat) => Sum(m, (t: nat) => p(g * WIDTH + t), WIDTH);
    forall g: nat | g < Groups(n) ensures data(g) == blocks(g) {
      SumCongruent(m, Segment(m, f, n, g), (t: nat) => p(g * WIDTH + t), WIDTH);
    }
    SumCongruent(m, data, blocks, Groups(n));
    RestIsUnit(m, p, n, Groups(n) * WIDTH);
    SumCongruent(m, p, f, n);
  }

  // ---------------------------------------------------------------- both stages

  /** Two recorded stages: the first cell ends as the fold of all elements, and nothing beyond the partials
      is written. Without elements nothing is recorded. */
  method Reduce<T(!new)>(m: Monoid<T>, f: nat -> T, n: int, order: seq<nat>, data: array<T>, finish: T -> T)
    requires IsCommutativeMonoid(m)
    requires n > 0 ==> Groups(n) <= data.Length && forall g: nat :: g in order <==> g < Groups(n)
    modifies data
    ensures n <= 0 ==> data[..] == old(data[..])
    ensures n > 0 ==> data[0] == finish(Sum(m, f, n))
    ensures n > 0 ==> forall p: nat :: Groups(n) <= p < data.Length ==> data[p] == old(data[p])
  {
    hide IsCommutativeMonoid, Sum, Partial;
    if n <= 0 {
      return;
    }
    var groups := Groups(n);
    PartialStage(m, f, n, groups, order, data);
    PartialsAddUp(m, f, n, Cells(data[..], m.unit));
    Finalize(m, data, groups, finish);
  }

  // ---------------------------------------------------------------- which element a thread reads

  /** idx * stride in 32-bit arithmetic. */
  function ElementIndex(idx: nat, stride: nat): nat { (idx * stride) % WORD }

  /** The kernels read x[i * stride] for every element exactly when the last index fits in 32 bits. */
  lemma ElementIndexExact(n: nat, stride: nat)
    requires n > 0
    ensures (forall i: nat :: i < n ==> ElementIndex(i, stride) == i * stride) <==> (n - 1) * stride < WORD
  {
    var last := n - 1;
    if (n - 1) * stride < WORD {
      forall i: nat | i < n ensures ElementIndex(i, stride) == i * stride {
        MulMonotone(stride, i, last);
        assert stride * i == i * stride && stride * last == last * stride;
      }
    } else {
      assert ElementIndex(last, stride) < WORD;
    }
  }
}
