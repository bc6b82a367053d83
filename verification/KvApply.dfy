/**
 The device-side apply: one thread per output, a dot product of a source row with a column of one
 head's block of the stacked weights, and what it computes after a fit.
 */
module KvApply {
  import opened Bits
  import opened Reals
  import opened GaussJordan
  import opened Ridge
  import opened RidgeFit

  // ---------------------------------------------------------------- the grid

  /** The element count pushed to the kernel, in 32 bits. */
  function NumElements(n: nat, m: nat): nat { n * m % WORD }

  /** The workgroup count: the product in 64 bits, narrowed to 32, at least one. */
  function GroupCount(n: nat, m: nat): nat {
    var g := (n * m + 255) / 256 % WORD;
    if g == 0 then 1 else g
  }

  predicate Computes(n: nat, m: nat, i: nat) { i < GroupCount(n, m) * 256 && i < NumElements(n, m) }

  /** All outputs are computed exactly when their number fits in 32 bits; no thread computes anything else. */
  lemma GridCovers(n: nat, m: nat)
    ensures (forall i: nat :: i < n * m ==> Computes(n, m, i)) <==> n * m < WORD
    ensures forall i: nat :: Computes(n, m, i) ==> i < n * m
  {
    EnoughGroups(n, m);
    hide NumElements, GroupCount;
    var total := n * m;
    if total < WORD {
      forall i: nat | i < total ensures Computes(n, m, i) {
      }
    } else {
      var i: nat := total - 1;
      assert !Computes(n, m, i);
    }
  }

  /** The 32-bit count is the true one exactly when that fits; then there are enough workgroups. */
  lemma EnoughGroups(n: nat, m: nat)
    ensures NumElements(n, m) <= n * m && (NumElements(n, m) == n * m <==> n * m < WORD)
    ensures n * m < WORD ==> n * m <= GroupCount(n, m) * 256
  {
    TotalFits(n * m);
  }

  lemma TotalFits(total: nat)
    ensures total % WORD <= total && (total % WORD == total <==> total < WORD)
    ensures total < WORD ==> (total + 255) / 256 % WORD == (total + 255) / 256 && total <= (total + 255) / 256 * 256
  {
  }

  // ---------------------------------------------------------------- what an output is

  /** Row k, column j of the block that starts at `offset`. */
  function WeightAt(w: seq<real>, offset: nat, m: nat, k: nat, j: nat): real {
    if offset + Base(k, m) + j < |w| then w[offset + Base(k, m) + j] else 0.0
  }

  function WeightColumn(w: seq<real>, offset: nat, m: nat, j: nat): Vec {
    (k: nat) => WeightAt(w, offset, m, k, j)
  }

  /** Output (r, j): row r of src against column j of the block. */
  function Output(src: seq<real>, w: seq<real>, offset: nat, d: nat, m: nat, r: nat, j: nat): real {
    Predict(At(src, d), d, WeightColumn(w, offset, m, j))(r)
  }

  /** One row of two features against the second of two heads, written out. */
  lemma OutputWrittenOut(a: real, b: real, w: seq<real>, j: nat)
    requires |w| == 8 && j < 2
    ensures Output([a, b], w, Base(Base(1, 2), 2), 2, 2, 0, j) == a * w[4 + j] + b * w[6 + j]
  {
    var x, u := At([a, b], 2), WeightColumn(w, 4, 2, j);
    assert x(0, 0) == a && x(0, 1) == b && u(0) == w[4 + j] && u(1) == w[6 + j];
    SigmaFew((k: nat) => Times(x(0, k), u(k)));
  }

  // ---------------------------------------------------------------- what the kernel reads

  /** Element i of a buffer when i is computed in 32 bits. */
  function Read32(s: seq<real>, i: nat): real {
    if i % WORD < |s| then s[i % WORD] else 0.0
  }

  function Term32(src: seq<real>, w: seq<real>, offset: nat, d: nat, m: nat, r: nat, j: nat): Vec {
    (k: nat) => Times(Read32(src, Base(r, d) + k), Read32(w, offset + Base(k, m) + j))
  }

  /** Output (r, j) with both indices in 32 bits. */
  function Output32(src: seq<real>, w: seq<real>, offset: nat, d: nat, m: nat, r: nat, j: nat): real {
    Sigma(Term32(src, w, offset, d, m, r, j), d)
  }

  /** Element k of row r, as the kernel finds it and as it is meant. */
  predicate SourceIndexExact(d: nat, r: nat, k: nat) { (Base(r, d) + k) % WORD == Base(r, d) + k }

  /** Every source element is the one meant exactly when the rows have at most 2^32 elements. */
  lemma SourceIndicesExact(n: nat, d: nat)
    ensures (forall r: nat, k: nat :: r < n && k < d ==> SourceIndexExact(d, r, k)) <==> Base(n, d) <= WORD
  {
    hide Base;
    if Base(n, d) <= WORD {
      forall r: nat, k: nat | r < n && k < d ensures SourceIndexExact(d, r, k) {
        RowBase(n, d, r);
        SmallWord(Base(r, d) + k);
      }
    } else {
      LastIndex(n, d);
      assert !SourceIndexExact(d, n - 1, d - 1);
    }
  }

  lemma LastIndex(n: nat, d: nat)
    requires Base(n, d) > 0
    ensures n > 0 && d > 0 && Base(n - 1, d) + (d - 1) == Base(n, d) - 1
  {
    assert n * d == (n - 1) * d + d;
  }

  /** h * src_dim * tgt_dim in 32 bits. */
  function HeadOffset32(h: nat, d: nat, m: nat): nat { h * d % WORD * m % WORD }

  /** Row k, column j of head h, as the kernel finds it and as it is meant. */
  predicate WeightIndexExact(h: nat, d: nat, m: nat, k: nat, j: nat) {
    (HeadOffset32(h, d, m) + Base(k, m) + j) % WORD == Base(Base(h, d), m) + Base(k, m) + j
  }

  /** Every weight of every head is the one meant exactly when there are at most 2^32 of them. */
  lemma WeightIndicesExact(heads: nat, d: nat, m: nat)
    ensures (forall h: nat, k: nat, j: nat :: h < heads && k < d && j < m ==> WeightIndexExact(h, d, m, k, j)) <==>
            Base(Base(heads, d), m) <= WORD
  {
    hide Base, HeadOffset32;
    if Base(Base(heads, d), m) <= WORD {
      forall h: nat, k: nat, j: nat | h < heads && k < d && j < m ensures WeightIndexExact(h, d, m, k, j) {
        HeadOffset(heads, h, d, m);
        RowBase(d, m, k);
        SmallWord(Base(Base(h, d), m) + Base(k, m) + j);
      }
    } else {
      LastIndex(Base(heads, d), m);
      BaseZero(d);
      if Base(heads, d) > 0 {
        LastIndex(heads, d);
        var h: nat, k: nat, j: nat := heads - 1, d - 1, m - 1;
        BaseSplit(h, d, k, m);
        assert !WeightIndexExact(h, d, m, k, j);
      }
    }
  }

  lemma BaseZero(m: nat)
    ensures Base(0, m) == 0
  {
  }

  lemma BaseSplit(h: nat, d: nat, k: nat, m: nat)
    ensures Base(Base(h, d) + k, m) == Base(Base(h, d), m) + Base(k, m)
  {
  }

  /** With that many source elements and weights at most, the kernel's output is the output. */
  lemma Output32IsOutput(src: seq<real>, w: seq<real>, heads: nat, h: nat, n: nat, d: nat, m: nat, r: nat, j: nat)
    requires |src| == Base(n, d) <= WORD && |w| == Base(Base(heads, d), m) <= WORD && h < heads && r < n && j < m
    ensures Output32(src, w, HeadOffset32(h, d, m), d, m, r, j) == Output(src, w, Base(Base(h, d), m), d, m, r, j)
  {
    hide Base, HeadOffset32, At, Times;
    var offset := Base(Base(h, d), m);
    var x, u := At(src, d), WeightColumn(w, offset, m, j);
    forall k: nat | k < d
      ensures Term32(src, w, HeadOffset32(h, d, m), d, m, r, j)(k) == Times(x(r, k), u(k))
    {
      SourceRead(src, n, d, r, k);
      WeightRead(w, heads, h, d, m, k, j);
    }
    SigmaSame(Term32(src, w, HeadOffset32(h, d, m), d, m, r, j), (k: nat) => Times(x(r, k), u(k)), d);
  }

  lemma SourceRead(src: seq<real>, n: nat, d: nat, r: nat, k: nat)
    requires |src| == Base(n, d) <= WORD && r < n && k < d
    ensures Read32(src, Base(r, d) + k) == At(src, d)(r, k)
  {
    hide Base;
    RowBase(n, d, r);
    SmallWord(Base(r, d) + k);
  }

  lemma WeightRead(w: seq<real>, heads: nat, h: nat, d: nat, m: nat, k: nat, j: nat)
    requires |w| == Base(Base(heads, d), m) <= WORD && h < heads && k < d && j < m
    ensures Read32(w, HeadOffset32(h, d, m) + Base(k, m) + j) == WeightAt(w, Base(Base(h, d), m), m, k, j)
  {
    hide Base, HeadOffset32;
    WeightIndicesExact(heads, d, m);
    assert WeightIndexExact(h, d, m, k, j);
    HeadOffset(heads, h, d, m);
    RowBase(d, m, k);
  }

  // ---------------------------------------------------------------- one thread

  method Thread(src: seq<real>, w: seq<real>, offset: nat, n: nat, d: nat, m: nat, i: nat, dst: array<real>)
    requires |src| == Base(n, d) && offset + Base(d, m) <= |w| && m > 0
    requires dst.Length == n * m
    modifies dst
    ensures dst[..] == if i < NumElements(n, m)
                       then old(dst[..])[i := Output32(src, w, offset, d, m, Quotient(i, m), Remainder(i, m))]
                       else old(dst[..])
  {
    hide Base, Quotient, Remainder, Read32;
    if i >= NumElements(n, m) {
      return;
    }
    InsideOutput(n, m, i);
    var j, r := Remainder(i, m), Quotient(i, m);
    var acc := 0.0;
    ghost var f := Term32(src, w, offset, d, m, r, j);
    for k := 0 to d
      invariant acc == Sigma(f, k) && dst[..] == old(dst[..])
    {
      SourceInside(src, n, d, r, k);
      WeightInside(w, offset, d, m, k, j);
      var x, u := src[(Base(r, d) + k) % WORD], w[(offset + Base(k, m) + j) % WORD];
      assert f(k) == x * u;
      assert Sigma(f, k + 1) == Sigma(f, k) + f(k);
      acc := acc + x * u;
    }
    dst[i] := acc;
  }

  /** The index of a source element stays inside the buffer also when it wraps. */
  lemma SourceInside(src: seq<real>, n: nat, d: nat, r: nat, k: nat)
    requires |src| == Base(n, d) && r < n && k < d
    ensures (Base(r, d) + k) % WORD < |src|
    ensures Read32(src, Base(r, d) + k) == src[(Base(r, d) + k) % WORD]
  {
    hide Base;
    RowBase(n, d, r);
  }

  lemma WeightInside(w: seq<real>, offset: nat, d: nat, m: nat, k: nat, j: nat)
    requires offset + Base(d, m) <= |w| && k < d && j < m
    ensures (offset + Base(k, m) + j) % WORD < |w|
    ensures Read32(w, offset + Base(k, m) + j) == w[(offset + Base(k, m) + j) % WORD]
  {
    hide Base;
    RowBase(d, m, k);
  }

  lemma InsideOutput(n: nat, m: nat, i: nat)
    requires m > 0 && i < NumElements(n, m)
    ensures i < n * m && Remainder(i, m) < m && Quotient(i, m) < n
    ensures i == Base(Quotient(i, m), m) + Remainder(i, m)
  {
    hide GroupCount;
    var q := Quotient(i, m);
    assert i < n * m;
    assert i == m * q + Remainder(i, m) && m * q == q * m;
    if q >= n {
      MulMonotone(m, n, q);
    }
  }

  // ---------------------------------------------------------------- the dispatch

  /** All threads of the dispatch. Each output is written by its own thread only; GridCovers says when all are
      written, Output32IsOutput when the values are the outputs. */
  method Apply(src: seq<real>, w: seq<real>, heads: nat, h: nat, n: nat, d: nat, m: nat, dst: array<real>)
    requires h < heads && m > 0 && |src| == Base(n, d) && |w| == Base(Base(heads, d), m)
    requires dst.Length == n * m
    modifies dst
    ensures forall i: nat :: i < n * m ==>
              dst[..][i] == if Computes(n, m, i)
                            then Output32(src, w, HeadOffset32(h, d, m), d, m, Quotient(i, m), Remainder(i, m))
                            else old(dst[..])[i]
  {
    hide Base, Quotient, Remainder, Output32, NumElements, GroupCount, HeadOffset32;
    OffsetInside(heads, h, d, m);
    var offset := HeadOffset32(h, d, m);
    var threads := GroupCount(n, m) * 256;
    for i := 0 to threads
      invariant forall p: nat :: p < n * m ==>
                  dst[..][p] == if p < i && Computes(n, m, p)
                                then Output32(src, w, offset, d, m, Quotient(p, m), Remainder(p, m))
                                else old(dst[..])[p]
    {
      Thread(src, w, offset, n, d, m, i, dst);
    }
  }

  /** The block the kernel reads lies inside the weights whatever the offset wraps to. */
  lemma OffsetInside(heads: nat, h: nat, d: nat, m: nat)
    requires h < heads
    ensures HeadOffset32(h, d, m) + Base(d, m) <= Base(Base(heads, d), m)
  {
    hide Base;
    HeadInside(heads, h, d, m);
    OffsetShrinks(h, d, m);
  }

  lemma OffsetShrinks(h: nat, d: nat, m: nat)
    ensures HeadOffset32(h, d, m) <= Base(Base(h, d), m)
  {
    var rows := Base(h, d);
    BaseMonotone(rows % WORD, rows, m);
    WordShrinks(Base(rows % WORD, m));
  }

  lemma WordShrinks(x: nat)
    ensures x % WORD <= x
  {
  }

  lemma HeadInside(heads: nat, h: nat, d: nat, m: nat)
    requires h < heads
    ensures Base(Base(h, d), m) + Base(d, m) <= Base(Base(heads, d), m)
  {
    var rows := Base(h, d);
    RowBase(heads, d, h);
    BaseMonotone(rows + d, Base(heads, d), m);
    BaseSplit(h, d, d, m);
  }

  lemma HeadOffset(heads: nat, h: nat, d: nat, m: nat)
    requires h < heads && Base(Base(heads, d), m) <= WORD && m > 0 && d > 0
    ensures HeadOffset32(h, d, m) == Base(Base(h, d), m)
    ensures Base(Base(h, d), m) + Base(d, m) <= Base(Base(heads, d), m)
  {
    var rows := Base(h, d);
    HeadInside(heads, h, d, m);
    RowBase(d, m, 0);
    assert rows <= Base(rows, m) by {
      MulMonotone(rows, 1, m);
    }
    SmallWord(rows);
    SmallWord(Base(rows, m));
  }

  lemma SmallWord(x: nat)
    requires x < WORD
    ensures x % WORD == x
  {
  }

  lemma BaseMonotone(a: nat, b: nat, m: nat)
    requires a <= b
    ensures Base(a, m) <= Base(b, m)
  {
    MulMonotone(m, a, b);
  }

  // ---------------------------------------------------------------- after a fit

  /** Head h's block of the stacked weights is the block the kernel reads at the head's offset. */
  lemma SameBlock(w: seq<real>, heads: nat, h: nat, d: nat, m: nat, k: nat, j: nat)
    requires |w| == Base(Base(heads, d), m) && h < heads && k < d && j < m
    ensures WeightAt(w, Base(Base(h, d), m), m, k, j) ==
            BlockEntry(GridOf(w, Base(heads, d), m), Base(h, d), 0, k, j)
  {
    RowBase(heads, d, h);
    assert Base(Base(h, d) + k, m) == Base(Base(h, d), m) + Base(k, m);
    hide Base;
    EntryAt(w, Base(heads, d), m, Base(h, d) + k, j);
  }

  lemma SamePredictions(x: Matrix, d: nat, u: Vec, v: Vec, r: nat)
    requires forall k: nat :: k < d ==> u(k) == v(k)
    ensures Predict(x, d, u)(r) == Predict(x, d, v)(r)
  {
    SigmaSame((k: nat) => Times(x(r, k), u(k)), (k: nat) => Times(x(r, k), v(k)), d);
  }

  /** End to end: after a successful fit, applying head h to a source block gives the predictions of weights that
      minimise the regularised squared error of that head's samples, column by column. */
  lemma AppliedFit(w: seq<real>, heads: nat, h: nat, n: nat, d: nat, m: nat, xs: seq<real>, ys: seq<real>,
                   samples: nat, lambda: real, src: seq<real>, r: nat, j: nat)
    returns (best: Vec)
    requires |w| == Base(Base(heads, d), m) && h < heads && j < m && lambda >= 0.0
    requires HeadFitted(GridOf(w, Base(heads, d), m), xs, ys, h, samples, d, m, lambda)
    ensures Output(src, w, Base(Base(h, d), m), d, m, r, j) == Predict(At(src, d), d, best)(r)
    ensures |src| == Base(n, d) <= WORD && |w| <= WORD && r < n ==>
              Output32(src, w, HeadOffset32(h, d, m), d, m, r, j) == Predict(At(src, d), d, best)(r)
    ensures forall v: Vec :: Loss(At(xs, d), ColumnOf(At(ys, m), j), samples, d, lambda, best) <=
                             Loss(At(xs, d), ColumnOf(At(ys, m), j), samples, d, lambda, v)
  {
    hide Base, HeadFitted, GridOf, At, Loss, Times, Output32;
    var g := GridOf(w, Base(heads, d), m);
    if |src| == Base(n, d) <= WORD && |w| <= WORD && r < n {
      Output32IsOutput(src, w, heads, h, n, d, m, r, j);
    }
    best := ColumnOf(FittedBlock(g, h, d), j);
    forall k: nat | k < d ensures WeightColumn(w, Base(Base(h, d), m), m, j)(k) == best(k) {
      SameBlock(w, heads, h, d, m, k, j);
    }
    SamePredictions(At(src, d), d, WeightColumn(w, Base(Base(h, d), m), m, j), best, r);
    forall v: Vec
      ensures Loss(At(xs, d), ColumnOf(At(ys, m), j), samples, d, lambda, best) <=
              Loss(At(xs, d), ColumnOf(At(ys, m), j), samples, d, lambda, v)
    {
      FittedMinimises(g, xs, ys, h, samples, d, m, lambda, j, v);
    }
  }
}
