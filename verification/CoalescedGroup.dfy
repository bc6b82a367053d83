/**
 Partitioning a coalesced group of active lanes into tiles, and the shuffles between ranks.
 A lane mask is the sequence of its bits, lane 0 first.
 */
module CoalescedGroup {
  import opened Bits

  type Mask = seq<bool>

  /** Number of active lanes below lane i: the rank of an active lane i. */
  function Rank(m: Mask, i: nat): (r: nat)
    requires i <= |m|
    ensures r <= i
  {
    if i == 0 then 0 else Rank(m, i - 1) + if m[i - 1] then 1 else 0
  }

  function Count(m: Mask): nat {
    Rank(m, |m|)
  }

  datatype Group = Group(mask: Mask, numThreads: nat, metaRank: nat, metaSize: nat, tiled: bool)

  /** A group made directly from a mask. */
  function FromMask(m: Mask): Group {
    Group(m, Count(m), 0, 1, false)
  }

  function NoLanes(width: nat): Mask {
    seq(width, _ => false)
  }

  /** The lanes of m whose rank falls in the same block of `size` ranks as the rank of `lane`. */
  function TileMask(m: Mask, size: nat, lane: nat): Mask
    requires size > 0 && lane < |m|
  {
    seq(|m|, i requires 0 <= i < |m| => m[i] && Quotient(Rank(m, i), size) == Quotient(Rank(m, lane), size))
  }

  ghost predicate ValidTileSize(size: nat) {
    size > 0 && IsPow2(size)
  }

  /** `length` ones shifted up to `start`, cut off at the width. */
  function ShiftedOnes(width: nat, start: int, length: int): Mask {
    seq(width, i => start <= i < start + length)
  }

  /** How many lanes the tile with block number c has. */
  function TileLength(n: nat, c: nat, size: nat): int {
    if n - c * size < size then n - c * size else size
  }

  /** A tile of a group that is marked as a tile itself: lanes in a row from the last multiple of the size on. */
  function TiledAgain(g: Group, lane: nat, size: nat): Group
    requires lane < |g.mask| && size > 0
  {
    var r := Rank(g.mask, lane);
    var length := TileLength(g.numThreads, Quotient(r, size), size);
    var member := ShiftedOnes(|g.mask|, Quotient(lane, size) * size, length);
    Group(member, Count(member), Quotient(r, size), Quotient(g.numThreads, size), true)
  }

  lemma AlignDown(x: nat, size: nat)
    requires ValidTileSize(size)
    ensures x - And(x, size - 1) == Quotient(x, size) * size
  {
    var k: nat :| size == Pow2(k);
    AndMask(x, k);
    hide And, Pow2, Quotient;
    WholeBlocks(x, size);
  }

  lemma WholeBlocks(x: nat, size: nat)
    requires size > 0
    ensures x - x % size == Quotient(x, size) * size
  {
    assert x == size * (x / size) + x % size && size * (x / size) == x / size * size;
  }

  /** What one calling lane gets: the mask/rank/skip loop, or the shifted mask if the group is a tile already. */
  method NewTiledGroup(g: Group, lane: nat, size: nat) returns (tile: Group)
    requires lane < |g.mask| && g.mask[lane] && g.numThreads == Count(g.mask)
    ensures !ValidTileSize(size) ==> tile == FromMask(NoLanes(|g.mask|))
    ensures ValidTileSize(size) && g.tiled ==> tile == TiledAgain(g, lane, size)
    ensures ValidTileSize(size) && !g.tiled ==>
              && tile.mask == TileMask(g.mask, size, lane) && tile.numThreads == Count(tile.mask)
              && tile.metaRank == Quotient(Rank(g.mask, lane), size)
              && tile.metaSize == Quotient(Count(g.mask) + size - 1, size) && !tile.tiled
  {
    hide Quotient, And, Pow2;
    if size > 0 {
      PowerOfTwoTest(size);
    }
    if size == 0 || And(size, size - 1) != 0 {
      return FromMask(NoLanes(|g.mask|));
    }
    var rank := Rank(g.mask, lane);
    if g.tiled {
      AlignDown(rank, size);
      AlignDown(lane, size);
      var left := g.numThreads - (rank - And(rank, size - 1));
      var ones := ShiftedOnes(|g.mask|, lane - And(lane, size - 1), if left < size then left else size);
      tile := Group(ones, Count(ones), Quotient(rank, size), Quotient(g.numThreads, size), true);
    } else {
      var member := CollectTile(g.mask, lane, size);
      tile := Group(member, Count(member), Quotient(rank, size), Quotient(g.numThreads + size - 1, size), false);
    }
  }

  /** Skip the lanes of the earlier tiles, then take up to `size` active lanes. */
  method CollectTile(m: Mask, lane: nat, size: nat) returns (member: Mask)
    requires lane < |m| && size > 0
    ensures member == TileMask(m, size, lane)
  {
    hide Quotient, TileMask;
    var lanesToSkip: int := Quotient(Rank(m, lane), size) * size;
    ghost var start: nat := lanesToSkip;
    var tileRank := 0;
    member := NoLanes(|m|);
    for i := 0 to |m|
      invariant |member| == |m|
      invariant lanesToSkip == start - Rank(m, i)
      invariant tileRank == InBlock(Rank(m, i), start, size)
      invariant forall j: nat :: j < |m| ==> member[j] == (j < i && m[j] && start <= Rank(m, j) < start + size)
    {
      if m[i] {
        if lanesToSkip <= 0 && tileRank < size {
          member := member[i := true];
          tileRank := tileRank + 1;
        }
        lanesToSkip := lanesToSkip - 1;
      }
    }
    MaskOfBlock(m, size, lane, member);
  }

  lemma MaskOfBlock(m: Mask, size: nat, lane: nat, member: Mask)
    requires size > 0 && lane < |m| && |member| == |m|
    requires var start := Quotient(Rank(m, lane), size) * size;
             forall j: nat :: j < |m| ==> member[j] == (m[j] && start <= Rank(m, j) < start + size)
    ensures member == TileMask(m, size, lane)
  {
    hide Quotient, Rank;
    forall j: nat | j < |m| ensures member[j] == TileMask(m, size, lane)[j] {
      BlockOf(Rank(m, j), size, Quotient(Rank(m, lane), size));
    }
  }

  /** How many of the ranks below r lie in [start, start + size). */
  function InBlock(r: nat, start: nat, size: nat): nat {
    if r <= start then 0 else if r - start >= size then size else r - start
  }

  lemma BlockOf(r: nat, size: nat, b: nat)
    requires size > 0
    ensures b * size <= r < b * size + size <==> Quotient(r, size) == b
  {
    assert r == size * (r / size) + r % size;
    assert size * (r / size) == (r / size) * size;
    if b * size <= r < b * size + size {
      DivModUnique(r, size, b, r - b * size);
    }
  }

  // ---------------------------------------------------------------- ranks inside a tile

  /** Ranks in a tile count the parent ranks from the start of the block. */
  lemma {:induction false} TileRank(m: Mask, size: nat, lane: nat, i: nat)
    requires size > 0 && lane < |m| && i <= |m|
    ensures Rank(TileMask(m, size, lane), i) == InBlock(Rank(m, i), Quotient(Rank(m, lane), size) * size, size)
  {
    if i > 0 {
      TileRank(m, size, lane, i - 1);
      BlockOf(Rank(m, i - 1), size, Quotient(Rank(m, lane), size));
    }
  }

  /** A lane's rank in its tile is its parent rank modulo the tile size. */
  lemma RankInTile(m: Mask, size: nat, lane: nat, i: nat)
    requires size > 0 && lane < |m| && i < |m| && TileMask(m, size, lane)[i]
    ensures Rank(TileMask(m, size, lane), i) == Rank(m, i) % size
  {
    hide Quotient;
    var b, r := Quotient(Rank(m, lane), size), Rank(m, i);
    TileRank(m, size, lane, i);
    BlockOf(r, size, b);
    assert b * size == size * b;
    DivModUnique(r, size, b, r - b * size);
  }

  lemma {:induction false} RankMonotone(m: Mask, i: nat, j: nat)
    requires i <= j <= |m|
    ensures Rank(m, i) <= Rank(m, j)
  {
    if i < j {
      RankMonotone(m, i, j - 1);
    }
  }

  /** Active lanes have distinct ranks below the count. */
  lemma RankStrict(m: Mask, i: nat, j: nat)
    requires i < j <= |m| && m[i]
    ensures Rank(m, i) < Rank(m, j)
  {
    RankMonotone(m, i + 1, j);
  }

  /** Every tile but the last has `size` lanes; the last has the remainder. */
  lemma TileSize(m: Mask, size: nat, lane: nat)
    requires size > 0 && lane < |m| && m[lane]
    ensures var b, n := Quotient(Rank(m, lane), size), Count(m);
            && b * size < n && b < Quotient(n + size - 1, size)
            && Count(TileMask(m, size, lane)) == (if b * size + size <= n then size else n - b * size)
            && (b + 1 < Quotient(n + size - 1, size) ==> Count(TileMask(m, size, lane)) == size)
  {
    var b, n := Quotient(Rank(m, lane), size), Count(m);
    TileRank(m, size, lane, |m|);
    RankStrict(m, lane, |m|);
    BlockOf(Rank(m, lane), size, b);
    LastBlock(n, size, b);
  }

  lemma LastBlock(n: nat, size: nat, b: nat)
    requires size > 0 && b * size < n
    ensures b < Quotient(n + size - 1, size)
    ensures b + 1 < Quotient(n + size - 1, size) ==> b * size + size < n
  {
    hide Quotient;
    var q := Quotient(n + size - 1, size);
    BlockOf(n + size - 1, size, q);
    if q <= b {
      ScaleLeft(q, b, size);
    }
    if b + 1 < q {
      ScaleLeft(b + 2, q, size);
    }
  }

  lemma ScaleLeft(a: nat, b: nat, d: nat)
    requires a <= b
    ensures a * d <= b * d
    ensures a >= 2 ==> a * d == (a - 2) * d + 2 * d
  {
    assert b * d == a * d + (b - a) * d;
  }

  // ---------------------------------------------------------------- the tiles partition the group

  ghost predicate Subset(a: Mask, b: Mask) {
    |a| == |b| && forall i: nat :: i < |a| && a[i] ==> b[i]
  }

  ghost predicate Disjoint(a: Mask, b: Mask) {
    |a| == |b| && forall i: nat :: i < |a| ==> !(a[i] && b[i])
  }

  /** Tiles are inside the group, cover it, and are equal or disjoint; lanes agree on their tile exactly when
      their meta ranks agree. */
  lemma TilesPartition(m: Mask, size: nat, lane: nat, lane': nat)
    requires size > 0 && lane < |m| && lane' < |m| && m[lane] && m[lane']
    ensures TileMask(m, size, lane)[lane] && Subset(TileMask(m, size, lane), m)
    ensures if Quotient(Rank(m, lane), size) == Quotient(Rank(m, lane'), size)
            then TileMask(m, size, lane) == TileMask(m, size, lane')
            else Disjoint(TileMask(m, size, lane), TileMask(m, size, lane'))
    ensures TileMask(m, size, lane)[lane'] <==> TileMask(m, size, lane) == TileMask(m, size, lane')
  {
    var t, t' := TileMask(m, size, lane), TileMask(m, size, lane');
    assert t[lane] && t'[lane'];
    if Quotient(Rank(m, lane), size) == Quotient(Rank(m, lane'), size) {
      assert t == t';
    }
  }

  /** The lane of a given rank. */
  function Select(m: Mask, k: nat): (i: nat)
    requires k < Count(m)
    ensures i < |m| && m[i] && Rank(m, i) == k
    decreases |m|
  {
    RankPrefix(m, |m| - 1, |m| - 1);
    if m[|m| - 1] && k == Count(m) - 1 then |m| - 1
    else
      var i := Select(m[..|m| - 1], k);
      RankPrefix(m, |m| - 1, i);
      i
  }

  lemma {:induction false} RankPrefix(m: Mask, n: nat, i: nat)
    requires i <= n <= |m|
    ensures Rank(m[..n], i) == Rank(m, i)
  {
    if i > 0 {
      RankPrefix(m, n, i - 1);
    }
  }

  /** Every index below the reported number of tiles is the meta rank of some lane. */
  lemma EveryMetaRankOccurs(m: Mask, size: nat, b: nat) returns (lane: nat)
    requires size > 0 && b < Quotient(Count(m) + size - 1, size)
    ensures lane < |m| && m[lane] && Quotient(Rank(m, lane), size) == b
  {
    var n := Count(m);
    var q := Quotient(n + size - 1, size);
    BlockOf(n + size - 1, size, q);
    MulMonotone(size, b + 1, q);
    assert size * (b + 1) == b * size + size && size * q == q * size;
    lane := Select(m, b * size);
    BlockOf(b * size, size, b);
  }

  // ---------------------------------------------------------------- tiling a tile

  /** Tiling a tile again equals tiling the parent directly by the smaller size. */
  lemma RetileIsTile(m: Mask, size: nat, small: nat, k: nat, lane: nat)
    requires small > 0 && k > 0 && size == small * k && lane < |m| && m[lane]
    ensures TileMask(TileMask(m, size, lane), small, lane) == TileMask(m, small, lane)
  {
    var t := TileMask(m, size, lane);
    forall i: nat | i < |m| ensures TileMask(t, small, lane)[i] == TileMask(m, small, lane)[i] {
      SubBlocks(Rank(m, i), Rank(m, lane), small, k);
      if t[i] {
        hide Quotient, Rank;
        RanksShift(m, size, small, k, lane, i);
        RanksShift(m, size, small, k, lane, lane);
      }
    }
  }

  /** Inside a tile the block numbers for `small` are the parent's, shifted by a constant. */
  lemma RanksShift(m: Mask, size: nat, small: nat, k: nat, lane: nat, i: nat)
    requires small > 0 && k > 0 && size == small * k && lane < |m| && i < |m|
    requires TileMask(m, size, lane)[i] || i == lane
    ensures size > 0
    ensures Quotient(Rank(TileMask(m, size, lane), i), small) + k * Quotient(Rank(m, lane), size) ==
            Quotient(Rank(m, i), small)
  {
    MulPositive(small, k);
    hide Quotient, Rank;
    TileRank(m, size, lane, i);
    ShiftArithmetic(Rank(m, i), Quotient(Rank(m, lane), size), size, small, k);
  }

  lemma MulPositive(a: nat, b: nat)
    requires a > 0 && b > 0
    ensures a * b > 0
  {
  }

  lemma ShiftArithmetic(r: nat, b: nat, size: nat, small: nat, k: nat)
    requires small > 0 && k > 0 && size == small * k && size > 0
    requires Quotient(r, size) == b
    ensures b * size <= r < b * size + size
    ensures Quotient(r - b * size, small) + k * b == Quotient(r, small)
  {
    hide Quotient;
    BlockOf(r, size, b);
    assert b * (small * k) == small * (k * b);
    ShiftedQuotient(r, small, k * b);
  }

  /** Blocks of `small` ranks refine blocks of `small * k` ranks. */
  lemma SubBlocks(r: nat, r': nat, small: nat, k: nat)
    requires small > 0 && k > 0
    ensures small * k > 0
    ensures Quotient(r, small) == Quotient(r', small) ==> Quotient(r, small * k) == Quotient(r', small * k)
  {
    NestedQuotient(r, small, k);
    NestedQuotient(r', small, k);
  }

  lemma NestedQuotient(r: nat, small: nat, k: nat)
    requires small > 0 && k > 0
    ensures small * k > 0 && Quotient(r, small * k) == Quotient(Quotient(r, small), k)
  {
    var q, q2 := r / small, (r / small) / k;
    assert r == small * q + r % small && q == k * q2 + q % k;
    var rest := small * (q % k) + r % small;
    assert r == (small * k) * q2 + rest by {
      assert small * (k * q2) == (small * k) * q2;
      assert small * q == small * (k * q2) + small * (q % k);
    }
    MulMonotone(small, q % k + 1, k);
    assert small * (q % k + 1) == small * (q % k) + small;
    DivModUnique(r, small * k, q2, rest);
  }

  lemma ShiftedQuotient(r: nat, small: nat, c: nat)
    requires small > 0 && small * c <= r
    ensures Quotient(r - small * c, small) + c == Quotient(r, small)
  {
    var q := r / small;
    assert r == small * q + r % small;
    if q < c {
      MulGap(small, q, c);
    }
    assert small * (q - c) == small * q - small * c;
    DivModUnique(r - small * c, small, q - c, r % small);
  }

  /** Two valid tile sizes: the smaller divides the larger. */
  lemma SmallerTileDivides(size: nat, small: nat) returns (k: nat)
    requires ValidTileSize(size) && ValidTileSize(small) && small <= size
    ensures k > 0 && size == small * k
  {
    var a: nat :| size == Pow2(a);
    var b: nat :| small == Pow2(b);
    if b > a {
      Pow2Monotone(a + 1, b);
    }
    k := Pow2(a - b);
    Pow2Add(b, a - b);
  }

  /** Partitioning a tile of the group gives the same group as partitioning the group itself. */
  lemma RetileValidSizes(m: Mask, size: nat, small: nat, lane: nat)
    requires ValidTileSize(size) && ValidTileSize(small) && small <= size && lane < |m| && m[lane]
    ensures TileMask(TileMask(m, size, lane), small, lane) == TileMask(m, small, lane)
  {
    var k := SmallerTileDivides(size, small);
    RetileIsTile(m, size, small, k, lane);
  }

  // ---------------------------------------------------------------- tiles of a whole thread block

  /** The arithmetic a thread block uses for its tiles: number of threads, tile index, number of tiles. */
  datatype BlockPart = BlockPart(numThreads: int, metaRank: nat, metaSize: nat)

  function BlockTile(n: nat, rank: nat, size: nat): BlockPart
    requires size > 0
  {
    var partitions := Quotient(n + size - 1, size);
    var tail := partitions * size - n;
    BlockPart(size - (if rank >= (partitions - 1) * size then tail else 0), Quotient(rank, size), partitions)
  }

  function AllLanes(n: nat): Mask { seq(n, _ => true) }

  lemma {:induction false} AllLanesRank(n: nat, i: nat)
    requires i <= n
    ensures Rank(AllLanes(n), i) == i
  {
    if i > 0 {
      AllLanesRank(n, i - 1);
    }
  }

  /** It agrees with the mask loop on a group in which every lane is active. */
  lemma BlockTileIsMaskTile(n: nat, rank: nat, size: nat)
    requires rank < n && size > 0
    ensures var m := AllLanes(n);
            && BlockTile(n, rank, size).numThreads == Count(TileMask(m, size, rank))
            && BlockTile(n, rank, size).metaRank == Quotient(Rank(m, rank), size)
            && BlockTile(n, rank, size).metaSize == Quotient(Count(m) + size - 1, size)
  {
    hide Quotient, TileMask, Rank;
    var m := AllLanes(n);
    AllLanesRank(n, rank);
    AllLanesRank(n, n);
    TileSize(m, size, rank);
    var b, q := Quotient(rank, size), Quotient(n + size - 1, size);
    LastTileRanks(n, rank, size, b, q);
  }

  /** The threads from (q - 1) * size on are those of the last tile. */
  lemma LastTileRanks(n: nat, rank: nat, size: nat, b: nat, q: nat)
    requires size > 0 && rank < n && b == Quotient(rank, size) && q == Quotient(n + size - 1, size) && b < q
    ensures rank >= (q - 1) * size <==> b == q - 1
    ensures n <= q * size && (b == q - 1 && b * size + size <= n ==> n == q * size)
    ensures q * size == (q - 1) * size + size
  {
    hide Quotient;
    BlockOf(rank, size, b);
    BlockOf(n + size - 1, size, q);
    assert q * size == (q - 1) * size + size;
    if b < q - 1 {
      ScaleLeft(b + 1, q - 1, size);
      assert (b + 1) * size == b * size + size;
    }
  }

  // ---------------------------------------------------------------- tiling a group marked as a tile

  /** The active lanes are the `n` lanes from b on. */
  ghost predicate InARow(m: Mask, b: nat, n: nat) {
    b + n <= |m| && forall i: nat :: i < |m| ==> (m[i] <==> b <= i < b + n)
  }

  lemma {:induction false} RankInARow(m: Mask, b: nat, n: nat, i: nat)
    requires InARow(m, b, n) && i <= |m|
    ensures Rank(m, i) == if i <= b then 0 else if i - b >= n then n else i - b
  {
    if i > 0 {
      RankInARow(m, b, n, i - 1);
    }
  }

  /** The tile of a lane: again lanes in a row, from the start of the lane's block of ranks on. */
  lemma TileInARow(m: Mask, b: nat, n: nat, lane: nat, size: nat)
    requires InARow(m, b, n) && lane < |m| && m[lane] && size > 0
    ensures b <= lane && Rank(m, lane) == lane - b
    ensures var c := Quotient(lane - b, size);
            && b + c * size <= lane && TileLength(n, c, size) > 0
            && TileMask(m, size, lane) == ShiftedOnes(|m|, b + c * size, TileLength(n, c, size))
  {
    hide Quotient, Rank;
    RankInARow(m, b, n, lane);
    var c := Quotient(lane - b, size);
    var skipped := c * size;
    BlockOf(lane - b, size, c);
    var t, ones := TileMask(m, size, lane), ShiftedOnes(|m|, b + c * size, TileLength(n, c, size));
    forall i: nat | i < |m| ensures t[i] == ones[i] {
      RankInARow(m, b, n, i);
      BlockOf(Rank(m, i), size, c);
    }
  }

  lemma SameStart(lane: nat, b: nat, size: nat)
    requires size > 0 && b <= lane
    ensures Quotient(lane, size) * size == b + Quotient(lane - b, size) * size <==> b % size == 0
    ensures Quotient(lane, size) * size <= lane
  {
    var q, c := Quotient(lane, size), Quotient(lane - b, size);
    BlockOf(lane, size, q);
    BlockOf(lane - b, size, c);
    if b % size == 0 {
      var k := b / size;
      assert b == size * k && size * k == k * size && (k + c) * size == k * size + c * size;
      BlockOf(lane, size, k + c);
    } else if q * size == b + c * size {
      assert (q - c) * size == q * size - c * size && size * (q - c) == (q - c) * size;
      DivModUnique(b, size, q - c, 0);
    }
  }

  lemma OnesDiffer(width: nat, start: nat, start': nat, length: int)
    requires start < width && start' < width && length > 0
    ensures ShiftedOnes(width, start, length) == ShiftedOnes(width, start', length) <==> start == start'
  {
    assert ShiftedOnes(width, start, length)[start] && ShiftedOnes(width, start', length)[start'];
  }

  /** On lanes in a row the shifted mask is the tile exactly when the first lane is a multiple of the size, and the
      number of tiles is the rounded-up one exactly when the size divides the number of lanes. */
  lemma TiledAgainIsTile(g: Group, b: nat, lane: nat, size: nat)
    requires InARow(g.mask, b, g.numThreads) && lane < |g.mask| && g.mask[lane] && size > 0
    ensures TiledAgain(g, lane, size).mask == TileMask(g.mask, size, lane) <==> b % size == 0
    ensures TiledAgain(g, lane, size).metaSize == Quotient(g.numThreads + size - 1, size) <==> g.numThreads % size == 0
    ensures TiledAgain(g, lane, size).metaRank == Quotient(Rank(g.mask, lane), size)
  {
    hide Quotient, TileMask, Rank, ShiftedOnes, InARow;
    TileInARow(g.mask, b, g.numThreads, lane, size);
    SameStart(lane, b, size);
    RoundedUp(g.numThreads, size);
    var c := Quotient(lane - b, size);
    OnesDiffer(|g.mask|, Quotient(lane, size) * size, b + c * size, TileLength(g.numThreads, c, size));
  }

  /** What the second branch gives on any group: the lanes from the last multiple of the size at or below the caller's
      lane on, as many as the caller's block of ranks has, cut off at the width of the warp; the count is theirs, the
      result is marked as a tile, and both indices round down. */
  lemma TiledAgainMeans(g: Group, lane: nat, size: nat, i: nat)
    requires lane < |g.mask| && g.mask[lane] && g.numThreads == Count(g.mask) && size > 0 && i < |g.mask|
    ensures var tile, n, r, start := TiledAgain(g, lane, size), Count(g.mask), Rank(g.mask, lane), lane - lane % size;
            var length := if n - (r - r % size) < size then n - (r - r % size) else size;
            && r < n && length > 0 && |tile.mask| == |g.mask|
            && (tile.mask[i] <==> start <= i < start + length)
            && tile.numThreads == (if start + length <= |g.mask| then length else |g.mask| - start)
            && tile.tiled
            && tile.metaRank * size <= r < tile.metaRank * size + size
            && tile.metaSize * size <= n < tile.metaSize * size + size
  {
    hide Quotient, Rank;
    var n, r := Count(g.mask), Rank(g.mask, lane);
    RankStrict(g.mask, lane, |g.mask|);
    WholeBlocks(lane, size);
    WholeBlocks(r, size);
    BlockOf(r, size, Quotient(r, size));
    BlockOf(n, size, Quotient(n, size));
    BlockOf(lane, size, Quotient(lane, size));
    var start, length := Quotient(lane, size) * size, TileLength(n, Quotient(r, size), size);
    OnesCount(|g.mask|, start, length);
  }

  lemma OnesCount(width: nat, start: nat, length: int)
    requires start < width && length > 0
    ensures Count(ShiftedOnes(width, start, length)) == if start + length <= width then length else width - start
  {
    hide Rank;
    var n: nat := if start + length <= width then length else width - start;
    RankInARow(ShiftedOnes(width, start, length), start, n, width);
  }

  lemma RoundedUp(n: nat, size: nat)
    requires size > 0
    ensures Quotient(n, size) == Quotient(n + size - 1, size) <==> n % size == 0
  {
    var q, r := n / size, n % size;
    assert n == size * q + r && size * (q + 1) == size * q + size;
    if r == 0 {
      DivModUnique(n + size - 1, size, q, size - 1);
    } else {
      DivModUnique(n + size - 1, size, q + 1, r - 1);
    }
  }

  // ---------------------------------------------------------------- shuffles between ranks

  lemma SelectUnique(m: Mask, i: nat)
    requires i < |m| && m[i]
    ensures Rank(m, i) < Count(m) && Select(m, Rank(m, i)) == i
  {
    RankStrict(m, i, |m|);
    var j := Select(m, Rank(m, i));
    if i < j {
      RankStrict(m, i, j);
    } else if j < i {
      RankStrict(m, j, i);
    }
  }

  /** Position of the c-th active lane at or above base; -1 if there are fewer. */
  function FindUp(m: Mask, base: nat, c: nat): int
    requires base <= |m| && c > 0
    decreases |m| - base
  {
    if base == |m| then -1
    else if !m[base] then FindUp(m, base + 1, c)
    else if c == 1 then base
    else FindUp(m, base + 1, c - 1)
  }

  /** Position of the c-th active lane below `top`, searching downward; -1 if there are fewer. */
  function FindDown(m: Mask, top: nat, c: nat): int
    requires top <= |m| && c > 0
  {
    if top == 0 then -1
    else if !m[top - 1] then FindDown(m, top - 1, c)
    else if c == 1 then top - 1
    else FindDown(m, top - 1, c - 1)
  }

  /** The find-nth-set intrinsic: upward from base for positive offsets, downward for negative ones, base included. */
  function FindNthSet(m: Mask, base: nat, offset: int): int
    requires base < |m|
  {
    if offset > 0 then FindUp(m, base, offset)
    else if offset < 0 then FindDown(m, base + 1, -offset)
    else if m[base] then base
    else -1
  }

  lemma {:induction false} FindUpIsSelect(m: Mask, base: nat, c: nat)
    requires base <= |m| && c > 0
    ensures FindUp(m, base, c) ==
            if Rank(m, base) + c <= Count(m) then Select(m, Rank(m, base) + c - 1) else -1
    decreases |m| - base
  {
    if base < |m| {
      FindUpIsSelect(m, base + 1, if m[base] && c > 1 then c - 1 else c);
      if m[base] {
        SelectUnique(m, base);
      }
    }
  }

  lemma {:induction false} FindDownIsSelect(m: Mask, top: nat, c: nat)
    requires top <= |m| && c > 0
    ensures Rank(m, top) <= Count(m)
    ensures FindDown(m, top, c) == if c <= Rank(m, top) then Select(m, Rank(m, top) - c) else -1
  {
    RankMonotone(m, top, |m|);
    if top > 0 {
      FindDownIsSelect(m, top - 1, if m[top - 1] && c > 1 then c - 1 else c);
      if m[top - 1] {
        SelectUnique(m, top - 1);
      }
    }
  }

  /** The remainder of a signed division that truncates toward zero. */
  function Truncated(x: int, n: nat): int
    requires n > 0
  {
    if x >= 0 then x % n else -(-x % n)
  }

  /** The lane `shfl` passes on for a signed source rank. */
  function ShuffleLane(m: Mask, srcRank: int): int
    requires Count(m) > 0
  {
    var k := Truncated(srcRank, Count(m));
    if Count(m) == |m| then k else FindNthSet(m, 0, k + 1)
  }

  lemma {:induction false} FullRank(m: Mask, i: nat)
    requires Count(m) == |m| && i <= |m|
    ensures Rank(m, i) == i && (i < |m| ==> m[i])
    decreases |m| - i
  {
    if i < |m| {
      FullRank(m, i + 1);
    }
  }

  lemma TruncatedIsRemainder(x: int, n: nat)
    requires n > 0
    ensures Truncated(x, n) >= 0 <==> x >= 0 || x % n == 0
    ensures x % n == if Truncated(x, n) >= 0 then Truncated(x, n) else Truncated(x, n) + n
    ensures -(n as int) < Truncated(x, n) < n
  {
    if x < 0 {
      var q, k := -x / n, -x % n;
      assert -x == n * q + k;
      if k == 0 {
        assert n * -q == -(n * q);
        DivModUnique(x, n, -q, 0);
      } else {
        assert n * (-q - 1) == -(n * q) - n;
        DivModUnique(x, n, -q - 1, n - k);
      }
    }
  }

  /** What `shfl` passes on, on both paths: the lane of that rank when the truncated remainder is not negative; for
      a negative one the remainder itself in a full group, and else lane 0 or no lane. */
  lemma ShuffleLaneByRank(m: Mask, srcRank: int)
    requires Count(m) > 0
    ensures var k := Truncated(srcRank, Count(m));
            k < Count(m) && ShuffleLane(m, srcRank) ==
              if k >= 0 then Select(m, k) else if Count(m) == |m| then k else if m[0] && k >= -2 then 0 else -1
  {
    hide Truncated;
    TruncatedIsRemainder(srcRank, Count(m));
    var k := Truncated(srcRank, Count(m));
    if Count(m) == |m| {
      if k >= 0 {
        FullRank(m, k);
        SelectUnique(m, k);
      }
    } else {
      assert Rank(m, 0) == 0;
      if k >= 0 {
        FindUpIsSelect(m, 0, k + 1);
      } else if k < -1 {
        FindDownFromFirst(m, -(k + 1));
      }
    }
  }

  lemma FindDownFromFirst(m: Mask, c: nat)
    requires |m| > 0 && c > 0
    ensures FindDown(m, 1, c) == if m[0] && c == 1 then 0 else -1
  {
    assert c > 1 ==> FindDown(m, 0, c - 1) == -1;
    assert FindDown(m, 0, c) == -1;
  }

  /** `shfl` reads the lane whose rank is the source rank modulo the group size, on both paths, exactly when the
      source rank is not negative or a multiple of the size. */
  lemma ShuffleReadsRank(m: Mask, srcRank: int)
    requires Count(m) > 0
    ensures 0 <= srcRank % Count(m) < Count(m)
    ensures ShuffleLane(m, srcRank) == Select(m, srcRank % Count(m)) <==> srcRank >= 0 || srcRank % Count(m) == 0
  {
    hide Truncated, ShuffleLane, Rank;
    var n, d := Count(m), srcRank % Count(m);
    TruncatedIsRemainder(srcRank, n);
    ShuffleLaneByRank(m, srcRank);
    FirstRank(m, Select(m, d));
  }

  lemma FirstRank(m: Mask, i: nat)
    requires i <= |m|
    ensures i == 0 ==> Rank(m, i) == 0
  {
  }

  /** The lane `shfl_down` reads: the plain lane offset in a full group, else a search from the calling lane,
      and the calling lane itself when there is no such lane. */
  function ShuffleDownLane(m: Mask, lane: nat, delta: nat): int
    requires lane < |m|
  {
    if Count(m) == |m| then (if lane + delta < |m| then lane + delta else lane)
    else
      var found := FindNthSet(m, lane, Signed32(delta + 1));
      if found == -1 then lane else found
  }

  function ShuffleUpLane(m: Mask, lane: nat, delta: nat): int
    requires lane < |m|
  {
    if Count(m) == |m| then (if delta <= lane then lane - delta else lane)
    else
      var found := FindNthSet(m, lane, Signed32(-(delta + 1)));
      if found == -1 then lane else found
  }

  /** What the search of `shfl_down` finds in a group that is not full. */
  lemma SearchUp(m: Mask, lane: nat, delta: nat)
    requires lane < |m| <= 64 && m[lane] && delta < WORD
    ensures var n, r := Count(m), Rank(m, lane);
            && r < n
            && FindNthSet(m, lane, Signed32(delta + 1)) ==
               if r + delta < n then Select(m, r + delta)
               else if delta == 0xFFFF_FFFF then lane
               else if 0xFFFF_FFFE - delta <= r then Select(m, r - (0xFFFF_FFFE - delta))
               else -1
  {
    RankStrict(m, lane, |m|);
    NextRank(m, lane);
    SelectUnique(m, lane);
    SignedOffset(delta);
    hide FindUp, FindDown, Rank, Signed32;
    if delta + 1 < 0x8000_0000 {
      FindUpIsSelect(m, lane, delta + 1);
    } else if delta + 1 < WORD {
      FindDownIsSelect(m, lane + 1, WORD - (delta + 1));
    }
  }

  lemma NextRank(m: Mask, lane: nat)
    requires lane < |m| && m[lane]
    ensures Rank(m, lane + 1) == Rank(m, lane) + 1
  {
  }

  lemma SignedOffset(delta: nat)
    requires delta < WORD
    ensures delta + 1 < 0x8000_0000 ==> Signed32(delta + 1) == delta + 1
    ensures 0x8000_0000 <= delta + 1 ==> Signed32(delta + 1) == delta + 1 - WORD
    ensures delta + 1 <= 0x8000_0000 ==> Signed32(-(delta + 1)) == -(delta + 1)
    ensures 0x8000_0000 < delta + 1 ==> Signed32(-(delta + 1)) == WORD - (delta + 1)
  {
  }

  /** In a full group a lane is its own rank. */
  lemma FullSelect(m: Mask, i: nat)
    requires Count(m) == |m| && i < |m|
    ensures Rank(m, i) == i && Select(m, i) == i
  {
    FullRank(m, i);
    SelectUnique(m, i);
  }

  /** `shfl_down` reads the lane `delta` ranks up, or the caller's own lane when there is none; from 2^31 - 1 on
      the offset is negative in a group that is not full, and the search runs downward. */
  lemma ShuffleDownReads(m: Mask, lane: nat, delta: nat)
    requires lane < |m| <= 64 && m[lane] && delta < WORD
    ensures var n, r := Count(m), Rank(m, lane);
            && r < n
            && ShuffleDownLane(m, lane, delta) ==
               Select(m, if r + delta < n then r + delta
                         else if n < |m| && 0xFFFF_FFFE - delta <= r && delta <= 0xFFFF_FFFE
                         then r - (0xFFFF_FFFE - delta)
                         else r)
  {
    hide FindNthSet, Rank, Signed32;
    RankStrict(m, lane, |m|);
    SelectUnique(m, lane);
    if Count(m) == |m| {
      FullSelect(m, lane);
      if lane + delta < |m| {
        FullSelect(m, lane + delta);
      }
    } else {
      SearchUp(m, lane, delta);
    }
  }

  /** When the documented source rank (rank + delta) mod size is the one read: it stays below the size; or the
      negated search finds a lane and 2^32 - 2 is a multiple of the size; or, the caller's own lane being read,
      delta is. */
  lemma ShuffleDownDocumented(m: Mask, lane: nat, delta: nat)
    requires lane < |m| <= 64 && m[lane] && delta < WORD
    ensures var n, r := Count(m), Rank(m, lane);
            r < n && (ShuffleDownLane(m, lane, delta) == Select(m, (r + delta) % n) <==>
                      if r + delta < n then true
                      else if n < |m| && 0xFFFF_FFFE - delta <= r && delta <= 0xFFFF_FFFE then 0xFFFF_FFFE % n == 0
                      else delta % n == 0)
  {
    hide ShuffleDownLane, Rank;
    var n, r := Count(m), Rank(m, lane);
    ShuffleDownReads(m, lane, delta);
    if r + delta < n {
      DivModUnique(r + delta, n, 0, r + delta);
    } else if n < |m| && 0xFFFF_FFFE - delta <= r && delta <= 0xFFFF_FFFE {
      SameRemainder(r - (0xFFFF_FFFE - delta), 0xFFFF_FFFE, n);
      SelectsDiffer(m, r - (0xFFFF_FFFE - delta), (r + delta) % n);
    } else {
      SameRemainder(r, delta, n);
      SelectsDiffer(m, r, (r + delta) % n);
    }
  }

  /** Different ranks are held by different lanes. */
  lemma SelectsDiffer(m: Mask, a: nat, b: nat)
    requires a < Count(m) && b < Count(m)
    ensures Select(m, a) == Select(m, b) <==> a == b
  {
    assert Rank(m, Select(m, a)) == a && Rank(m, Select(m, b)) == b;
  }

  lemma SameRemainder(r: nat, delta: nat, n: nat)
    requires r < n
    ensures (r + delta) % n == r <==> delta % n == 0
  {
    var q, e := delta / n, delta % n;
    assert delta == n * q + e;
    if r + e < n {
      DivModUnique(r + delta, n, q, r + e);
    } else {
      assert n * (q + 1) == n * q + n;
      DivModUnique(r + delta, n, q + 1, r + e - n);
    }
  }

  /** What the search of `shfl_up` finds in a group that is not full. */
  lemma SearchDown(m: Mask, lane: nat, delta: nat)
    requires lane < |m| <= 64 && m[lane] && delta < WORD
    ensures var n, r := Count(m), Rank(m, lane);
            && r < n
            && FindNthSet(m, lane, Signed32(-(delta + 1))) ==
               if delta <= r then Select(m, r - delta)
               else if delta == 0xFFFF_FFFF then lane
               else if delta >= 0x8000_0000 && r + (0xFFFF_FFFE - delta) < n then Select(m, r + (0xFFFF_FFFE - delta))
               else -1
  {
    RankStrict(m, lane, |m|);
    NextRank(m, lane);
    SelectUnique(m, lane);
    SignedOffset(delta);
    hide FindUp, FindDown, Rank, Signed32;
    if delta + 1 <= 0x8000_0000 {
      FindDownIsSelect(m, lane + 1, delta + 1);
    } else if delta + 1 < WORD {
      FindUpIsSelect(m, lane, WORD - (delta + 1));
    }
  }

  /** `shfl_up` reads the lane `delta` ranks down, or the caller's own lane; from 2^31 on the negated
      offset is positive again in a group that is not full, and the search runs upward. */
  lemma ShuffleUpReads(m: Mask, lane: nat, delta: nat)
    requires lane < |m| <= 64 && m[lane] && delta < WORD
    ensures var n, r := Count(m), Rank(m, lane);
            && r < n
            && ShuffleUpLane(m, lane, delta) ==
               Select(m, if delta <= r then r - delta
                         else if n < |m| && delta <= 0xFFFF_FFFE && r + (0xFFFF_FFFE - delta) < n
                         then r + (0xFFFF_FFFE - delta)
                         else r)
  {
    hide FindNthSet, Rank, Signed32;
    RankStrict(m, lane, |m|);
    SelectUnique(m, lane);
    if Count(m) == |m| {
      FullSelect(m, lane);
      if delta <= lane {
        FullSelect(m, lane - delta);
      }
    } else {
      SearchDown(m, lane, delta);
    }
  }

  /** The same for the documented source rank (rank - delta) mod size. */
  lemma ShuffleUpDocumented(m: Mask, lane: nat, delta: nat)
    requires lane < |m| <= 64 && m[lane] && delta < WORD
    ensures var n, r := Count(m), Rank(m, lane);
            r < n && (ShuffleUpLane(m, lane, delta) == Select(m, (r - delta) % n) <==>
                      if delta <= r then true
                      else if n < |m| && delta <= 0xFFFF_FFFE && r + (0xFFFF_FFFE - delta) < n then 0xFFFF_FFFE % n == 0
                      else delta % n == 0)
  {
    hide ShuffleUpLane, Rank;
    var n, r := Count(m), Rank(m, lane);
    ShuffleUpReads(m, lane, delta);
    if delta <= r {
      DivModUnique(r - delta, n, 0, r - delta);
    } else if n < |m| && delta <= 0xFFFF_FFFE && r + (0xFFFF_FFFE - delta) < n {
      SameRemainderDown(r + (0xFFFF_FFFE - delta), 0xFFFF_FFFE, n);
      SelectsDiffer(m, r + (0xFFFF_FFFE - delta), (r - delta) % n);
    } else {
      SameRemainderDown(r, delta, n);
      SelectsDiffer(m, r, (r - delta) % n);
    }
  }

  lemma SameRemainderDown(r: nat, delta: nat, n: nat)
    requires r < n
    ensures (r - delta) % n == r <==> delta % n == 0
  {
    var q, e := delta / n, delta % n;
    assert delta == n * q + e;
    assert n * -q == -(n * q);
    if e <= r {
      DivModUnique(r - delta, n, -q, r - e);
    } else {
      assert n * (-q - 1) == n * -q - n;
      DivModUnique(r - delta, n, -q - 1, r - e + n);
    }
  }

  // ---------------------------------------------------------------- splitting by a predicate

  /** The lanes of m whose predicate is `side`: what binary_partition returns to those lanes. */
  function BinaryPart(m: Mask, pred: Mask, side: bool): Mask
    requires |pred| == |m|
  {
    seq(|m|, i requires 0 <= i < |m| => if side then m[i] && pred[i] else m[i] != (m[i] && pred[i]))
  }

  /** The two parts split the group: every lane is in the part of its own predicate only, and sizes add up. */
  lemma {:induction false} BinaryPartition(m: Mask, pred: Mask, i: nat)
    requires |pred| == |m| && i <= |m|
    ensures forall j: nat, side: bool :: j < |m| ==> (BinaryPart(m, pred, side)[j] <==> m[j] && pred[j] == side)
    ensures Rank(BinaryPart(m, pred, true), i) + Rank(BinaryPart(m, pred, false), i) == Rank(m, i)
  {
    if i > 0 {
      BinaryPartition(m, pred, i - 1);
    }
  }
}
