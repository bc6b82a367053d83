/**
 The shared-memory radix-2 kernel (bit-reversed load, log2 n butterfly stages, strided
 store) and the two-pass 2D transform recorded by the host. Butterflies of one stage and
 workgroups of one pass run in an arbitrary order.
 */
module FftKernel {
  import opened Algebra
  import opened Bits
  import opened FourierTransform

  // ---------------------------------------------------------------- plan

  datatype Status = Success | InvalidArgument | InitializationFailed | DriverError(code: int)

  datatype Plan = Plan(n: nat, log2n: nat, is2d: bool)

  ghost predicate ValidPlan(p: Plan) {
    1 <= p.log2n <= 10 && p.n == Pow2(p.log2n)
  }

  /** Accepts exactly the powers of two in [2, 1024] and records the exponent. */
  method CreatePlan(n: nat, is2d: bool) returns (status: Status, plan: Plan)
    ensures status == Success <==> 2 <= n <= 1024 && IsPow2(n)
    ensures status == Success ==> ValidPlan(plan) && plan.n == n && plan.is2d == is2d
    ensures status != Success ==> status == InvalidArgument
  {
    plan := Plan(n, 0, is2d);
    if n < 2 || n > 1024 || And(n, n - 1) != 0 {
      if n >= 1 { PowerOfTwoTest(n); }
      return InvalidArgument, plan;
    }
    PowerOfTwoTest(n);
    ghost var bits: nat :| n == Pow2(bits);
    if bits > 10 {
      ExponentBound(bits);
    }
    var log2n, t := 0, n;
    while t > 1
      invariant log2n <= bits && t == Pow2(bits - log2n)
    {
      t, log2n := t / 2, log2n + 1;
    }
    assert bits == log2n;
    return Success, Plan(n, log2n, is2d);
  }

  lemma ExponentBound(bits: nat)
    requires bits > 10
    ensures Pow2(bits) > 1024
  {
    Pow2Monotone(11, bits);
    assert Pow2(11) == 2048;
  }

  // ---------------------------------------------------------------- bit reversal

  /** The low `bits` binary digits of x in the opposite order. */
  function Reverse(x: nat, bits: nat): nat {
    if bits == 0 then 0
    else (if x % 2 == 1 then Pow2(bits - 1) else 0) + Reverse(x / 2, bits - 1)
  }

  method BitReverse(x0: nat, bits: nat) returns (r: nat)
    ensures r == Reverse(x0, bits)
  {
    r := 0;
    var x := x0;
    for i := 0 to bits
      invariant Reverse(x0, bits) == r * Pow2(bits - i) + Reverse(x, bits - i)
    {
      OrLowBit(r, x);
      assert Pow2(bits - i) == 2 * Pow2(bits - i - 1);
      ShiftIn(r, x % 2, Pow2(bits - i - 1));
      r := Or(2 * r, And(x, 1));
      x := x / 2;
    }
  }

  lemma OrLowBit(r: nat, x: nat)
    ensures Or(2 * r, And(x, 1)) == 2 * r + x % 2
  {
    assert Pow2(0) == 1 && Pow2(1) == 2;
    AndMask(x, 1);
    if x % 2 == 0 {
      OrZero(2 * r);
    } else {
      assert (2 * r) / Pow2(0) == 2 * r;
      OrBit(2 * r, 0);
    }
  }

  lemma ShiftIn(r: nat, b: nat, p: nat)
    requires b < 2
    ensures r * (2 * p) + (if b == 1 then p else 0) == (2 * r + b) * p
  {
  }

  lemma {:induction false} ReverseBound(x: nat, bits: nat)
    ensures Reverse(x, bits) < Pow2(bits)
  {
    if bits > 0 {
      ReverseBound(x / 2, bits - 1);
    }
  }

  /** Adding the top digit of the argument adds the low digit of the result. */
  lemma {:induction false} ReverseTop(lo: nat, top: bool, bits: nat)
    requires bits > 0 && lo < Pow2(bits - 1)
    ensures Reverse((if top then Pow2(bits - 1) else 0) + lo, bits) ==
            2 * Reverse(lo, bits - 1) + (if top then 1 else 0)
    decreases bits
  {
    var x := (if top then Pow2(bits - 1) else 0) + lo;
    if bits == 1 {
      assert Reverse(x / 2, 0) == 0;
    } else {
      assert Pow2(bits - 1) == 2 * Pow2(bits - 2);
      assert x % 2 == lo % 2 && x / 2 == (if top then Pow2(bits - 2) else 0) + lo / 2;
      ReverseTop(lo / 2, top, bits - 1);
    }
  }

  /** Bit reversal is its own inverse, so the load is a permutation. */
  lemma {:induction false} ReverseInvolution(x: nat, bits: nat)
    requires x < Pow2(bits)
    ensures Reverse(Reverse(x, bits), bits) == x
    decreases bits
  {
    if bits > 0 {
      ReverseInvolution(x / 2, bits - 1);
      ReverseBound(x / 2, bits - 1);
      ReverseTop(Reverse(x / 2, bits - 1), x % 2 == 1, bits);
    }
  }

  // ---------------------------------------------------------------- one butterfly stage

  /** The bit of weight h is clear in i: i is the top of its butterfly. */
  predicate Low(i: nat, h: nat)
    requires h > 0
  {
    (i / h) % 2 == 0
  }

  lemma LowPartner(i: nat, h: nat)
    requires h > 0
    ensures (i + h) / h == i / h + 1 && (i + h) % h == i % h
    ensures Low(i, h) ==> !Low(i + h, h)
    ensures !Low(i, h) ==> i >= h && Low(i - h, h) && (i - h) % h == i % h
  {
    StepUp(i, h);
    if !Low(i, h) {
      assert i >= h by {
        if i < h { DivModUnique(i, h, 0, i); }
      }
      StepUp(i - h, h);
    }
  }

  lemma StepUp(i: nat, h: nat)
    requires h > 0
    ensures (i + h) / h == i / h + 1 && (i + h) % h == i % h
  {
    var q := i / h;
    assert h * (q + 1) == h * q + h;
    DivModUnique(i + h, h, q + 1, i % h);
  }

  /** i = (2h) b + k splits as the low or the high half of block b. */
  lemma BlockCoordinates(i: nat, h: nat)
    requires h > 0
    ensures i / (2 * h) == (i / h) / 2
    ensures i % (2 * h) == i % h + (if Low(i, h) then 0 else h)
  {
    var q, k := i / h, i % h;
    assert i == h * q + k;
    assert h * q == 2 * h * (q / 2) + h * (q % 2);
    if q % 2 == 0 {
      DivModUnique(i, 2 * h, q / 2, k);
    } else {
      DivModUnique(i, 2 * h, q / 2, k + h);
    }
  }

  /** A block of 2h cells never straddles the end of the array. */
  lemma PartnerInRange(i: nat, h: nat, blocks: nat)
    requires h > 0 && Low(i, h) && i < 2 * h * blocks
    ensures i + h < 2 * h * blocks
  {
    BlockCoordinates(i, h);
    var b := i / (2 * h);
    assert i == 2 * h * b + i % h;
    if b >= blocks {
      MulMonotone(2 * h, blocks, b);
    } else {
      MulGap(2 * h, b, blocks);
    }
  }

  /** The top cell of the butterfly that cell i belongs to. */
  ghost function Top(i: nat, h: nat): nat
    requires h > 0
  {
    LowPartner(i, h);
    if Low(i, h) then i else i - h
  }

  lemma TopIsLow(i: nat, h: nat)
    requires h > 0
    ensures Top(i, h) <= i && Low(Top(i, h), h)
  {
    LowPartner(i, h);
  }

  lemma TopIs(i: nat, idx: nat, h: nat)
    requires h > 0 && Low(idx, h)
    ensures Top(i, h) == idx <==> i == idx || i == idx + h
  {
    LowPartner(i, h);
    LowPartner(idx, h);
  }

  /** Cell i after a stage with half size h and twiddle root w, over `blocks` blocks of 2h cells. */
  ghost function StageCell<T(!new)>(r: Ring<T>, w: T, s: seq<T>, h: nat, blocks: nat, i: nat): T
    requires h > 0 && |s| == 2 * h * blocks && i < |s|
  {
    LowPartner(i, h);
    if Low(i, h) then
      PartnerInRange(i, h, blocks);
      r.add(s[i], r.mul(s[i + h], Pow(r, w, i % h)))
    else
      r.Sub(s[i - h], r.mul(s[i], Pow(r, w, i % h)))
  }

  /** All butterflies of one stage, taken in any order. */
  method Stage<T(!new)>(r: Ring<T>, w: T, s: array<T>, k: nat, ghost blocks: nat)
    requires s.Length == 2 * Pow2(k) * blocks
    modifies s
    ensures forall i: nat :: i < s.Length ==> s[i] == StageCell(r, w, old(s[..]), Pow2(k), blocks, i)
  {
    hide Pow, Pow2, And, Or, Top, StageCell;
    var h := Pow2(k);
    ghost var before := s[..];
    var pending := set i: nat | i < s.Length && Low(i, h);
    forall i: nat | i < s.Length ensures Top(i, h) in pending {
      TopIsLow(i, h);
    }
    while pending != {}
      invariant pending <= set i: nat | i < s.Length && Low(i, h)
      invariant forall i: nat :: i < s.Length ==>
                  s[i] == if Top(i, h) in pending then before[i] else StageCell(r, w, before, h, blocks, i)
      decreases pending
    {
      var idx :| idx in pending;
      ButterflyAt(r, w, before, k, blocks, idx);
      assert And(idx, h) == 0;
      var j := And(idx, h - 1);
      var lo, hi := idx, Or(idx, h);
      var u := s[lo];
      var v := r.mul(s[hi], Pow(r, w, j));
      s[lo] := r.add(u, v);
      s[hi] := r.Sub(u, v);
      pending := pending - {idx};
    }
  }

  /** The bit operations of a butterfly, the two cells it owns and their new values. */
  lemma ButterflyAt<T(!new)>(r: Ring<T>, w: T, s: seq<T>, k: nat, blocks: nat, idx: nat)
    requires var h := Pow2(k); |s| == 2 * h * blocks && idx < |s| && Low(idx, h)
    ensures var h := Pow2(k);
            && And(idx, h) == 0 && And(idx, h - 1) == idx % h && Or(idx, h) == idx + h && idx + h < |s|
            && (forall i: nat :: Top(i, h) == idx <==> i == idx || i == idx + h)
            && StageCell(r, w, s, h, blocks, idx) == r.add(s[idx], r.mul(s[idx + h], Pow(r, w, idx % h)))
            && StageCell(r, w, s, h, blocks, idx + h) == r.Sub(s[idx], r.mul(s[idx + h], Pow(r, w, idx % h)))
  {
    hide Pow, And, Or;
    var h := Pow2(k);
    AndBit(idx, k);
    AndMask(idx, k);
    OrBit(idx, k);
    PartnerInRange(idx, h, blocks);
    LowPartner(idx, h);
    forall i: nat ensures Top(i, h) == idx <==> i == idx || i == idx + h {
      TopIs(i, idx, h);
    }
  }

  // ---------------------------------------------------------------- one workgroup

  /** A buffer read as a function of the index. */
  ghost function At<T(!new)>(r: Ring<T>, s: seq<T>): nat -> T {
    (i: nat) => if i < |s| then s[i] else r.zero
  }

  /** After t stages every block of 2^t cells holds the transform of its own slice of x. */
  ghost predicate StagesDone<T(!new)>(r: Ring<T>, w: T, x: nat -> T, s: seq<T>, bits: nat, t: nat)
    requires t <= bits
  {
    && |s| == Pow2(bits)
    && forall i: nat :: i < |s| ==> s[i] == StageValue(r, w, x, bits, t, i)
  }

  ghost function StageValue<T(!new)>(r: Ring<T>, w: T, x: nat -> T, bits: nat, t: nat, i: nat): T
    requires t <= bits
  {
    var m, st := Pow2(t), Pow2(bits - t);
    SliceDft(r, Pow(r, w, st), m, x, Reverse(Quotient(i, m), bits - t), st, Remainder(i, m))
  }

  /** A single-element slice transforms to itself: the state right after the load. */
  lemma LoadedValue<T(!new)>(r: Ring<T>, w: T, x: nat -> T, bits: nat, i: nat)
    requires IsCommutativeRing(r)
    ensures StageValue(r, w, x, bits, 0, i) == x(Reverse(i, bits))
  {
    var st := Pow2(bits);
    var off := Reverse(i, bits);
    assert Pow2(0) == 1 && i / 1 == i && i % 1 == 0;
    SinglePointDft(r, Pow(r, w, st), Slice(x, off, st));
    assert off + 0 * st == off;
  }

  lemma SinglePointDft<T(!new)>(r: Ring<T>, u: T, y: nat -> T)
    requires IsCommutativeRing(r)
    ensures Dft(r, u, 1, y, 0) == y(0)
  {
    SumOne(r.Additive(), (j: nat) => r.mul(y(j), Twiddle(r, u, j, 0)));
    MulOne(r, y(0));
  }

  /** Where the butterfly of cell i sits: block b, offset k, top cell lo. */
  lemma ButterflyCoordinates(i: nat, h: nat, blocks: nat)
    requires h > 0 && i < 2 * h * blocks
    ensures var b, k, lo := i / (2 * h), i % h, Top(i, h);
            && lo + h < 2 * h * blocks && (i == lo || i == lo + h)
            && lo / h == 2 * b && lo % h == k && (lo + h) / h == 2 * b + 1 && (lo + h) % h == k
            && i % (2 * h) == (if i == lo then k else k + h)
  {
    LowPartner(i, h);
    BlockCoordinates(i, h);
    var lo := Top(i, h);
    LowPartner(lo, h);
    PartnerInRange(lo, h, blocks);
    BlockCoordinates(lo, h);
  }

  /** The two half-length transforms a butterfly of block b reads. */
  lemma HalfBlocks<T(!new)>(r: Ring<T>, w: T, x: nat -> T, bits: nat, t: nat, b: nat, k: nat, lo: nat)
    requires IsCommutativeRing(r)
    requires t < bits
    requires var h := Pow2(t); lo / h == 2 * b && lo % h == k && (lo + h) / h == 2 * b + 1 && (lo + h) % h == k
    ensures var h, st := Pow2(t), Pow2(bits - t - 1);
            var u, off := Pow(r, w, st), Reverse(b, bits - t - 1);
            && StageValue(r, w, x, bits, t, lo) == SliceDft(r, r.mul(u, u), h, x, off, 2 * st, k)
            && StageValue(r, w, x, bits, t, lo + h) == SliceDft(r, r.mul(u, u), h, x, off + st, 2 * st, k)
  {
    var st := Pow2(bits - t - 1);
    assert Pow2(bits - t) == 2 * st;
    PowAdd(r, w, st, st);
    assert (2 * b) / 2 == b && (2 * b + 1) / 2 == b;
  }

  /** The root of the stage that merges blocks of 2^t cells is a half turn at 2^t. */
  lemma StageRoot<T(!new)>(r: Ring<T>, w: T, bits: nat, t: nat)
    requires IsCommutativeRing(r)
    requires t < bits && HalfTurn(r, w, Pow2(bits - 1))
    ensures HalfTurn(r, Pow(r, w, Pow2(bits - t - 1)), Pow2(t))
  {
    PowMul(r, w, Pow2(bits - t - 1), Pow2(t));
    Pow2Add(bits - t - 1, t);
  }

  /** The butterfly of block b at offset k yields cells k and k + 2^t of the block's transform. */
  lemma BlockButterfly<T(!new)>(r: Ring<T>, w: T, x: nat -> T, bits: nat, t: nat, b: nat, k: nat, lo: nat)
    requires IsCommutativeRing(r)
    requires t < bits && HalfTurn(r, w, Pow2(bits - 1))
    requires var h := Pow2(t); lo / h == 2 * b && lo % h == k && (lo + h) / h == 2 * b + 1 && (lo + h) % h == k
    ensures var h, st := Pow2(t), Pow2(bits - t - 1);
            var u, off := Pow(r, w, st), Reverse(b, bits - t - 1);
            var p := StageValue(r, w, x, bits, t, lo);
            var v := r.mul(StageValue(r, w, x, bits, t, lo + h), Pow(r, u, k));
            && SliceDft(r, u, 2 * h, x, off, st, k) == r.add(p, v)
            && SliceDft(r, u, 2 * h, x, off, st, k + h) == r.Sub(p, v)
  {
    hide StageValue, SliceDft, Pow, Reverse, IsCommutativeRing, HalfTurn;
    var h, st := Pow2(t), Pow2(bits - t - 1);
    HalfBlocks(r, w, x, bits, t, b, k, lo);
    StageRoot(r, w, bits, t);
    Butterfly(r, Pow(r, w, st), h, x, Reverse(b, bits - t - 1), st, k);
  }

  /** Both cells of a butterfly in terms of its top cell. */
  lemma StageCellFromTop<T(!new)>(r: Ring<T>, u: T, s: seq<T>, h: nat, blocks: nat, i: nat)
    requires h > 0 && |s| == 2 * h * blocks && i < |s|
    ensures var k, lo := i % h, Top(i, h);
            && lo + h < |s|
            && StageCell(r, u, s, h, blocks, i) ==
               if i == lo then r.add(s[lo], r.mul(s[lo + h], Pow(r, u, k)))
               else r.Sub(s[lo], r.mul(s[lo + h], Pow(r, u, k)))
  {
    hide Pow;
    ButterflyCoordinates(i, h, blocks);
  }

  lemma StageTarget<T(!new)>(r: Ring<T>, w: T, x: nat -> T, bits: nat, t: nat, i: nat)
    requires t < bits
    ensures var h, st := Pow2(t), Pow2(bits - t - 1);
            StageValue(r, w, x, bits, t + 1, i) ==
            SliceDft(r, Pow(r, w, st), 2 * h, x, Reverse(Quotient(i, 2 * h), bits - t - 1), st, Remainder(i, 2 * h))
  {
    assert Pow2(t + 1) == 2 * Pow2(t);
  }

  /** One stage turns the transforms of the half blocks into the transforms of the blocks. */
  lemma StageAdvances<T(!new)>(r: Ring<T>, w: T, x: nat -> T, before: seq<T>, bits: nat, t: nat, blocks: nat, i: nat)
    requires IsCommutativeRing(r)
    requires t < bits && HalfTurn(r, w, Pow2(bits - 1))
    requires StagesDone(r, w, x, before, bits, t)
    requires |before| == 2 * Pow2(t) * blocks && i < |before|
    ensures StageCell(r, Pow(r, w, Pow2(bits - t - 1)), before, Pow2(t), blocks, i) ==
            StageValue(r, w, x, bits, t + 1, i)
  {
    hide StageValue, StageCell, SliceDft, Pow, Pow2, Reverse, IsCommutativeRing, HalfTurn, Top;
    var h := Pow2(t);
    var lo := Top(i, h);
    ButterflyCoordinates(i, h, blocks);
    BlockButterfly(r, w, x, bits, t, i / (2 * h), i % h, lo);
    StageCellFromTop(r, Pow(r, w, Pow2(bits - t - 1)), before, h, blocks, i);
    StageTarget(r, w, x, bits, t, i);
    assert before[lo] == StageValue(r, w, x, bits, t, lo);
    assert before[lo + h] == StageValue(r, w, x, bits, t, lo + h);
  }

  /** Row mode reads a contiguous run, column mode a strided column, of an n x n buffer. */
  datatype Mode = RowMode | ColumnMode

  function Base(mode: Mode, n: nat, wg: nat): nat {
    if mode == RowMode then wg * n else wg
  }

  function Stride(mode: Mode, n: nat): nat {
    if mode == RowMode then 1 else n
  }

  /** The workgroup that owns cell p, and the position of p inside its slice. */
  function Owner(mode: Mode, n: nat, p: nat): nat
    requires n > 0
  {
    if mode == RowMode then p / n else p % n
  }

  function Position(mode: Mode, n: nat, p: nat): nat
    requires n > 0
  {
    if mode == RowMode then p % n else p / n
  }

  /** The n slices of a pass partition the n * n cells. */
  lemma SlicesPartition(mode: Mode, n: nat, wg: nat, j: nat)
    requires wg < n && j < n
    ensures var p := Base(mode, n, wg) + j * Stride(mode, n);
            p < n * n && Owner(mode, n, p) == wg && Position(mode, n, p) == j
  {
    var a, b := if mode == RowMode then wg else j, if mode == RowMode then j else wg;
    MulGap(n, a, n);
    assert n * a == a * n;
    DivModUnique(a * n + b, n, a, b);
  }

  /** Row-major coordinates. */
  lemma CellOf(n: nat, i: nat, c: nat)
    requires i < n && c < n
    ensures i * n + c < n * n && (i * n + c) / n == i && (i * n + c) % n == c
  {
    SlicesPartition(ColumnMode, n, c, i);
  }

  lemma CellIsOwned(mode: Mode, n: nat, p: nat)
    requires n > 0 && p < n * n
    ensures Owner(mode, n, p) < n && Position(mode, n, p) < n
    ensures Base(mode, n, Owner(mode, n, p)) + Position(mode, n, p) * Stride(mode, n) == p
  {
    var q := p / n;
    assert p == n * q + p % n && n * q == q * n;
    if q >= n {
      MulMonotone(n, n, q);
    }
  }

  /** What one workgroup of a pass computes for cell p of the buffer g. */
  ghost function PassValue<T(!new)>(r: Ring<T>, w: T, mode: Mode, n: nat, g: seq<T>, p: nat): T
    requires n > 0
  {
    Dft(r, w, n, Slice(At(r, g), Base(mode, n, Owner(mode, n, p)), Stride(mode, n)), Position(mode, n, p))
  }

  /** The transform of one slice, held in shared memory. */
  method TransformShared<T(!new)>(r: Ring<T>, w: T, bits: nat, s: array<T>, ghost x: nat -> T)
    requires IsCommutativeRing(r)
    requires bits > 0 && HalfTurn(r, w, Pow2(bits - 1))
    requires StagesDone(r, w, x, s[..], bits, 0)
    modifies s
    ensures StagesDone(r, w, x, s[..], bits, bits)
  {
    hide IsCommutativeRing, StageCell, StageValue, Pow;
    for t := 0 to bits
      invariant StagesDone(r, w, x, s[..], bits, t)
    {
      ghost var before := s[..];
      ghost var blocks := Pow2(bits - t - 1);
      Pow2Add(t + 1, bits - t - 1);
      Stage(r, Pow(r, w, Pow2(bits - t - 1)), s, t, blocks);
      StageFinished(r, w, x, before, s[..], bits, t, blocks);
    }
  }

  lemma StageFinished<T(!new)>(r: Ring<T>, w: T, x: nat -> T, before: seq<T>, after: seq<T>,
                               bits: nat, t: nat, blocks: nat)
    requires IsCommutativeRing(r)
    requires t < bits && HalfTurn(r, w, Pow2(bits - 1))
    requires StagesDone(r, w, x, before, bits, t)
    requires |before| == 2 * Pow2(t) * blocks == |after|
    requires forall i: nat :: i < |after| ==>
               after[i] == StageCell(r, Pow(r, w, Pow2(bits - t - 1)), before, Pow2(t), blocks, i)
    ensures StagesDone(r, w, x, after, bits, t + 1)
  {
    forall i: nat | i < |after| ensures after[i] == StageValue(r, w, x, bits, t + 1, i) {
      StageAdvances(r, w, x, before, bits, t, blocks, i);
    }
  }

  lemma FinalValue<T(!new)>(r: Ring<T>, w: T, x: nat -> T, bits: nat, k: nat)
    requires IsCommutativeRing(r)
    requires k < Pow2(bits)
    ensures StageValue(r, w, x, bits, bits, k) == Dft(r, w, Pow2(bits), x, k)
  {
    var n := Pow2(bits);
    DivModUnique(k, n, 0, k);
    assert Pow(r, w, 1) == r.mul(Pow(r, w, 0), w);
    MulOne(r, w);
    assert Reverse(0, 0) == 0 && Pow2(0) == 1;
    DftCongruent(r, w, n, Slice(x, 0, 1), x, k);
  }

  /** Bit-reversed load of one slice into shared memory. */
  method LoadReversed<T(!new)>(r: Ring<T>, bits: nat, mode: Mode, wg: nat, input: array<T>) returns (s: array<T>)
    requires wg < Pow2(bits) && input.Length == Pow2(bits) * Pow2(bits)
    ensures fresh(s) && s.Length == Pow2(bits)
    ensures forall i: nat :: i < s.Length ==>
              s[i] == Slice(At(r, input[..]), Base(mode, Pow2(bits), wg), Stride(mode, Pow2(bits)))(Reverse(i, bits))
  {
    hide Reverse;
    var n := Pow2(bits);
    var base, stride := Base(mode, n, wg), Stride(mode, n);
    ghost var x := Slice(At(r, input[..]), base, stride);
    s := new T[n](_ => r.zero);
    for idx := 0 to n
      invariant forall i: nat :: i < n && Reverse(i, bits) < idx ==> s[i] == x(Reverse(i, bits))
    {
      SlicesPartition(mode, n, wg, idx);
      var rev := BitReverse(idx, bits);
      ReverseBound(idx, bits);
      ReverseInvolution(idx, bits);
      s[rev] := input[base + idx * stride];
      forall i: nat | i < n && Reverse(i, bits) == idx ensures i == rev {
        ReverseInvolution(i, bits);
      }
    }
    forall i: nat | i < n ensures Reverse(i, bits) < n {
      ReverseBound(i, bits);
    }
  }

  /** Strided store of shared memory into one slice; no other cell is written. */
  method StoreSlice<T(!new)>(mode: Mode, wg: nat, s: array<T>, output: array<T>)
    requires wg < s.Length && output.Length == s.Length * s.Length && s != output
    modifies output
    ensures forall p: nat :: p < output.Length ==> Position(mode, s.Length, p) < s.Length
    ensures forall p: nat :: p < output.Length ==>
              output[p] == if Owner(mode, s.Length, p) == wg then s[Position(mode, s.Length, p)] else old(output[p])
  {
    var n := s.Length;
    forall p: nat | p < output.Length ensures Position(mode, n, p) < n {
      CellIsOwned(mode, n, p);
    }
    for idx := 0 to n
      invariant forall p: nat :: p < output.Length ==>
                  output[p] == if Owner(mode, n, p) == wg && Position(mode, n, p) < idx
                               then s[Position(mode, n, p)] else old(output[p])
    {
      SlicesPartition(mode, n, wg, idx);
      var cell := Base(mode, n, wg) + idx * Stride(mode, n);
      forall p: nat | p < output.Length && Owner(mode, n, p) == wg && Position(mode, n, p) == idx
        ensures p == cell
      {
        CellIsOwned(mode, n, p);
      }
      hide Base, Stride, Owner, Position;
      output[cell] := s[idx];
    }
  }

  /** One workgroup: bit-reversed load, all stages, strided store. */
  method RunWorkgroup<T(!new)>(r: Ring<T>, w: T, bits: nat, mode: Mode, wg: nat, input: array<T>, output: array<T>)
    requires IsCommutativeRing(r)
    requires bits > 0 && HalfTurn(r, w, Pow2(bits - 1))
    requires wg < Pow2(bits)
    requires input.Length == Pow2(bits) * Pow2(bits) == output.Length
    modifies output
    ensures forall p: nat :: p < output.Length ==>
              output[p] == if Owner(mode, Pow2(bits), p) == wg
                           then PassValue(r, w, mode, Pow2(bits), old(input[..]), p) else old(output[p])
  {
    ghost var n := Pow2(bits);
    ghost var x := Slice(At(r, input[..]), Base(mode, n, wg), Stride(mode, n));
    var s := LoadReversed(r, bits, mode, wg, input);
    forall i: nat | i < s.Length ensures s[i] == StageValue(r, w, x, bits, 0, i) {
      LoadedValue(r, w, x, bits, i);
    }
    TransformShared(r, w, bits, s, x);
    forall k: nat | k < n ensures s[k] == Dft(r, w, n, x, k) {
      FinalValue(r, w, x, bits, k);
    }
    StoreSlice(mode, wg, s, output);
  }

  // ---------------------------------------------------------------- the 2D dispatch

  /** All workgroups of one pass, in any order; `input` and `output` may be the same buffer. */
  method RunPass<T(!new)>(r: Ring<T>, w: T, bits: nat, mode: Mode, input: array<T>, output: array<T>)
    requires IsCommutativeRing(r)
    requires bits > 0 && HalfTurn(r, w, Pow2(bits - 1))
    requires input.Length == Pow2(bits) * Pow2(bits) == output.Length
    modifies output
    ensures forall p: nat :: p < output.Length ==>
              output[p] == PassValue(r, w, mode, Pow2(bits), old(input[..]), p)
  {
    var n := Pow2(bits);
    ghost var g, before := input[..], output[..];
    forall p: nat | p < output.Length ensures Owner(mode, n, p) < n {
      CellIsOwned(mode, n, p);
    }
    var pending := Below(n);
    while pending != {}
      invariant pending <= Below(n)
      invariant forall p: nat :: p < input.Length && Owner(mode, n, p) in pending ==> input[p] == g[p]
      invariant forall p: nat :: p < output.Length ==>
                  output[p] == if Owner(mode, n, p) in pending then before[p] else PassValue(r, w, mode, n, g, p)
      decreases pending
    {
      var wg :| wg in pending;
      ghost var now := input[..];
      RunWorkgroup(r, w, bits, mode, wg, input, output);
      SameSliceSameValue(r, w, mode, n, now, g, wg);
      pending := pending - {wg};
    }
  }

  /** The workgroup indices of a dispatch of n workgroups. */
  function Below(n: nat): (s: set<nat>)
    ensures forall i: nat :: i in s <==> i < n
  {
    if n == 0 then {} else Below(n - 1) + {n - 1}
  }

  lemma SameSliceSameValue<T(!new)>(r: Ring<T>, w: T, mode: Mode, n: nat, g: seq<T>, g': seq<T>, wg: nat)
    requires n > 0 && |g| == n * n == |g'|
    requires forall q: nat :: q < n * n && Owner(mode, n, q) == wg ==> g[q] == g'[q]
    ensures forall p: nat :: p < n * n && Owner(mode, n, p) == wg ==>
              PassValue(r, w, mode, n, g, p) == PassValue(r, w, mode, n, g', p)
  {
    forall p: nat | p < n * n && Owner(mode, n, p) == wg
      ensures PassValue(r, w, mode, n, g, p) == PassValue(r, w, mode, n, g', p)
    {
      PassReadsItsSlice(r, w, mode, n, g, g', p);
    }
  }

  lemma SameAt<T(!new)>(r: Ring<T>, g: seq<T>, g': seq<T>, q: nat)
    requires |g| == |g'| && (q < |g| ==> g[q] == g'[q])
    ensures At(r, g)(q) == At(r, g')(q)
  {
  }

  /** A workgroup reads only the cells it owns. */
  lemma PassReadsItsSlice<T(!new)>(r: Ring<T>, w: T, mode: Mode, n: nat, g: seq<T>, g': seq<T>, p: nat)
    requires n > 0 && |g| == n * n == |g'| && p < n * n
    requires forall q: nat :: q < n * n && Owner(mode, n, q) == Owner(mode, n, p) ==> g[q] == g'[q]
    ensures PassValue(r, w, mode, n, g, p) == PassValue(r, w, mode, n, g', p)
  {
    hide Owner, Position, Base, Stride, Dft, At;
    CellIsOwned(mode, n, p);
    var wg := Owner(mode, n, p);
    var base, stride := Base(mode, n, wg), Stride(mode, n);
    forall j: nat | j < n ensures Slice(At(r, g), base, stride)(j) == Slice(At(r, g'), base, stride)(j) {
      SlicesPartition(mode, n, wg, j);
      SameAt(r, g, g', base + j * stride);
    }
    DftCongruent(r, w, n, Slice(At(r, g), base, stride), Slice(At(r, g'), base, stride), Position(mode, n, p));
  }

  /** The row-major n x n grid held in a buffer. */
  ghost function Grid<T(!new)>(r: Ring<T>, n: nat, s: seq<T>): (nat, nat) -> T {
    (i: nat, c: nat) => At(r, s)(i * n + c)
  }

  /** `out` holds the 2D transform of the grid held in `g`. */
  ghost predicate IsTransform<T(!new)>(r: Ring<T>, w: T, n: nat, g: seq<T>, out: seq<T>) {
    && n > 0 && |g| == n * n == |out|
    && forall p: nat :: p < n * n ==> out[p] == Dft2(r, w, n, Grid(r, n, g), p / n, p % n)
  }

  /** Row pass into `output`, barrier, column pass in place: the 2D transform of the input grid. `rows` and `columns`
      are what recording the two dispatches answers; a dispatch that was refused does not run, nor does anything after
      it. */
  method ExecuteDir2D<T(!new)>(plan: Plan, r: Ring<T>, w: T, input: array<T>, output: array<T>,
                               rows: Status, columns: Status)
    returns (status: Status)
    requires IsCommutativeRing(r) && ValidPlan(plan)
    requires HalfTurn(r, w, plan.n / 2)
    requires input.Length == plan.n * plan.n == output.Length
    modifies output
    ensures status == if !plan.is2d then InitializationFailed else if rows != Success then rows else columns
    ensures !plan.is2d || rows != Success ==> output[..] == old(output[..])
    ensures plan.is2d && rows == Success && columns != Success ==> IsRowPass(r, w, plan.n, old(input[..]), output[..])
    ensures status == Success ==> IsTransform(r, w, plan.n, old(input[..]), output[..])
  {
    hide PassValue, IsCommutativeRing, IsTransform;
    if !plan.is2d {
      return InitializationFailed;
    }
    if rows != Success {
      return rows;
    }
    ghost var g := input[..];
    RunPass(r, w, plan.log2n, RowMode, input, output);
    if columns != Success {
      return columns;
    }
    ghost var half := output[..];
    RunPass(r, w, plan.log2n, ColumnMode, output, output);
    PassesTransform(r, w, plan.n, g, half, output[..]);
    status := Success;
  }

  /** `out` holds the transform of every row of the grid held in `g`. */
  ghost predicate IsRowPass<T(!new)>(r: Ring<T>, w: T, n: nat, g: seq<T>, out: seq<T>) {
    n > 0 && |g| == n * n == |out| && forall p: nat :: p < |out| ==> out[p] == PassValue(r, w, RowMode, n, g, p)
  }

  lemma PassesTransform<T(!new)>(r: Ring<T>, w: T, n: nat, g: seq<T>, rows: seq<T>, out: seq<T>)
    requires IsCommutativeRing(r)
    requires n > 0 && |g| == n * n == |rows| == |out|
    requires forall p: nat :: p < |rows| ==> rows[p] == PassValue(r, w, RowMode, n, g, p)
    requires forall p: nat :: p < |out| ==> out[p] == PassValue(r, w, ColumnMode, n, rows, p)
    ensures IsTransform(r, w, n, g, out)
  {
    hide PassValue, Dft2, Grid, IsCommutativeRing;
    forall p: nat | p < n * n ensures out[p] == Dft2(r, w, n, Grid(r, n, g), p / n, p % n) {
      TwoPasses(r, w, n, g, rows, p);
    }
  }

  /** A column pass over the result of a row pass. */
  lemma TwoPasses<T(!new)>(r: Ring<T>, w: T, n: nat, g: seq<T>, rows: seq<T>, p: nat)
    requires IsCommutativeRing(r)
    requires n > 0 && |g| == n * n == |rows| && p < n * n
    requires forall q: nat :: q < |rows| ==> rows[q] == PassValue(r, w, RowMode, n, g, q)
    ensures PassValue(r, w, ColumnMode, n, rows, p) == Dft2(r, w, n, Grid(r, n, g), p / n, p % n)
  {
    hide Dft, Dft2, IsCommutativeRing;
    var k, l := p / n, p % n;
    var grid := Grid(r, n, g);
    var wanted := (i: nat) => Dft(r, w, n, (c: nat) => grid(i, c), l);
    var column := Slice(At(r, rows), l, n);
    forall i: nat | i < n ensures column(i) == wanted(i) {
      RowOfPass(r, w, n, g, rows, i, l);
    }
    DftCongruent(r, w, n, column, wanted, k);
    RowsThenColumns(r, w, n, grid, k, l);
  }

  lemma UnitSlice<T(!new)>(x: nat -> T, off: nat, st: nat, j: nat)
    requires st == 1
    ensures Slice(x, off, st)(j) == x(off + j)
  {
    assert off + j * st == off + j;
  }

  lemma GridCell<T(!new)>(r: Ring<T>, n: nat, s: seq<T>, i: nat, c: nat)
    ensures Grid(r, n, s)(i, c) == At(r, s)(i * n + c)
  {
  }

  lemma RowOfPass<T(!new)>(r: Ring<T>, w: T, n: nat, g: seq<T>, rows: seq<T>, i: nat, l: nat)
    requires n > 0 && |g| == n * n == |rows| && i < n && l < n
    requires forall q: nat :: q < |rows| ==> rows[q] == PassValue(r, w, RowMode, n, g, q)
    ensures Slice(At(r, rows), l, n)(i) == Dft(r, w, n, (c: nat) => Grid(r, n, g)(i, c), l)
  {
    SlicesPartition(ColumnMode, n, l, i);
    var q := l + i * n;
    SlicesPartition(RowMode, n, i, l);
    var x, y := Slice(At(r, g), i * n, 1), (c: nat) => Grid(r, n, g)(i, c);
    forall c: nat | c < n ensures x(c) == y(c) {
      UnitSlice(At(r, g), i * n, 1, c);
      GridCell(r, n, g, i, c);
    }
    DftCongruent(r, w, n, x, y, l);
  }

  /** Forward then inverse through two buffers returns the input multiplied by n * n. */
  lemma RoundTrip2D<T(!new)>(r: Ring<T>, w: T, v: T, plan: Plan, input: seq<T>, spectrum: seq<T>, output: seq<T>)
    requires IsCommutativeRing(r) && ValidPlan(plan)
    requires HalfTurn(r, w, plan.n / 2) && r.mul(w, v) == r.one
    requires IsTransform(r, w, plan.n, input, spectrum)
    requires IsTransform(r, v, plan.n, spectrum, output)
    ensures forall p: nat :: p < |input| ==> output[p] == r.mul(Scalar(r, plan.n * plan.n), input[p])
  {
    HalfTurnIsPrincipal(r, w, plan.log2n);
    forall p: nat | p < |input| ensures output[p] == r.mul(Scalar(r, plan.n * plan.n), input[p]) {
      RoundTripCell(r, w, v, plan.n, input, spectrum, output, p);
    }
  }

  /** Executing forward and then inverse, through any two buffers, which may be the input itself: when no dispatch is
      refused, the result is the original input multiplied by n * n. */
  method ForwardThenInverse<T(!new)>(plan: Plan, r: Ring<T>, w: T, v: T, input: array<T>, spectrum: array<T>,
                                     output: array<T>, dispatches: seq<Status>)
    returns (status: Status)
    requires IsCommutativeRing(r) && ValidPlan(plan)
    requires HalfTurn(r, w, plan.n / 2) && r.mul(w, v) == r.one
    requires input.Length == spectrum.Length == output.Length == plan.n * plan.n && |dispatches| == 4
    modifies spectrum, output
    ensures status == Success <==> plan.is2d && forall i :: 0 <= i < 4 ==> dispatches[i] == Success
    ensures status == Success ==> forall p: nat :: p < output.Length ==>
              output[p] == r.mul(Scalar(r, plan.n * plan.n), old(input[..])[p])
  {
    hide IsCommutativeRing, IsTransform, HalfTurn, IsRowPass, ValidPlan;
    ghost var g := input[..];
    InverseHalfTurn(r, w, v, plan.n / 2);
    status := ExecuteDir2D(plan, r, w, input, spectrum, dispatches[0], dispatches[1]);
    if status == Success {
      ghost var f := spectrum[..];
      status := ExecuteDir2D(plan, r, v, spectrum, output, dispatches[2], dispatches[3]);
      if status == Success {
        RoundTrip2D(r, w, v, plan, g, f, output[..]);
      }
    }
  }

  lemma RoundTripCell<T(!new)>(r: Ring<T>, w: T, v: T, n: nat, input: seq<T>, spectrum: seq<T>, output: seq<T>, p: nat)
    requires IsCommutativeRing(r)
    requires PrincipalRoot(r, w, n) && r.mul(w, v) == r.one
    requires IsTransform(r, w, n, input, spectrum) && IsTransform(r, v, n, spectrum, output)
    requires p < |input|
    ensures p < |output| && output[p] == r.mul(Scalar(r, n * n), input[p])
  {
    var i, c := p / n, p % n;
    CellIsOwned(RowMode, n, p);
    assert output[p] == Dft2(r, v, n, Grid(r, n, spectrum), i, c);
    SpectrumGrid(r, w, v, n, input, spectrum, i, c);
    Dft2Inversion(r, w, v, n, Grid(r, n, input), i, c);
    assert Grid(r, n, input)(i, c) == input[p] by {
      assert p == i * n + c;
      GridCell(r, n, input, i, c);
    }
  }

  lemma SpectrumGrid<T(!new)>(r: Ring<T>, w: T, v: T, n: nat, input: seq<T>, spectrum: seq<T>, i: nat, c: nat)
    requires IsTransform(r, w, n, input, spectrum)
    ensures Dft2(r, v, n, Grid(r, n, spectrum), i, c) ==
            Dft2(r, v, n, (k: nat, l: nat) => Dft2(r, w, n, Grid(r, n, input), k, l), i, c)
  {
    var g := Grid(r, n, input);
    var got, wanted := Grid(r, n, spectrum), (k: nat, l: nat) => Dft2(r, w, n, g, k, l);
    forall k: nat, l: nat | k < n && l < n ensures got(k, l) == wanted(k, l) {
      CellOf(n, k, l);
      GridCell(r, n, spectrum, k, l);
    }
    Dft2Congruent(r, v, n, got, wanted, i, c);
  }

  lemma Dft2Congruent<T(!new)>(r: Ring<T>, w: T, n: nat, f: (nat, nat) -> T, g: (nat, nat) -> T, k: nat, l: nat)
    requires forall i: nat, c: nat :: i < n && c < n ==> f(i, c) == g(i, c)
    ensures Dft2(r, w, n, f, k, l) == Dft2(r, w, n, g, k, l)
  {
    var m := r.Additive();
    var inner := (c: nat) => RingSum(r, (i: nat) => r.mul(f(i, c), Pow(r, w, i * k + c * l)), n);
    var inner' := (c: nat) => RingSum(r, (i: nat) => r.mul(g(i, c), Pow(r, w, i * k + c * l)), n);
    forall c: nat | c < n ensures inner(c) == inner'(c) {
      SumCongruent(m, (i: nat) => r.mul(f(i, c), Pow(r, w, i * k + c * l)),
                   (i: nat) => r.mul(g(i, c), Pow(r, w, i * k + c * l)), n);
    }
    SumCongruent(m, inner, inner', n);
  }
}
