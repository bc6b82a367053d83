/**
 The dispatch grid of the fused quantized GEMMs: the tier is read back from the table after
 the pipeline was obtained, and the tile shape follows it.
 */
module QgemmDispatch {
  import opened PipelineTable
  import opened PipelineKeys
  import opened PipelineFallback
  import opened PipelineRuns
  import opened PipelineMemo
  import opened Bits
  import opened Wrappers

  predicate IsQgemm(kernel: nat) {
    IsQgemmAllTiers(kernel) || IsQgemmBaselineOnly(kernel) || IsQgemmF16(kernel)
  }

  /** The quantized kernels: nine, and seven f16 variants. */
  lemma QgemmKernels(kernel: nat)
    ensures IsQgemm(kernel) <==> 5 <= kernel <= 13 || 32 <= kernel <= 38
  {
  }

  /** The request a quantized GEMM makes. */
  function QgemmRequest(kernel: nat): Request {
    Request(kernel, 0, 0, 0)
  }

  predicate EntryFor(e: Entry, kernel: nat) {
    e.valid && e.dataType == kernel && e.transA == 0 && e.transB == 0 && e.strided == 0
  }

  /** First entry of the kernel from slot i on. */
  function ScanFrom(t: Table, kernel: nat, i: nat): (r: Option<nat>)
    requires i <= CAPACITY
    ensures r.Some? ==> r.value < CAPACITY
    decreases CAPACITY - i
  {
    if i == CAPACITY then None
    else if EntryFor(t[i], kernel) then Some(i)
    else ScanFrom(t, kernel, i + 1)
  }

  /** Highest tier from `tier` down that has a blob. */
  function BlobWalk(useCoopmat: bool, kernel: nat, tier: int): nat
    decreases tier + 1
  {
    if tier < 0 then BASELINE
    else if HasGemmBlob(useCoopmat, kernel, tier) then tier
    else BlobWalk(useCoopmat, kernel, tier - 1)
  }

  /** The tier the grid is sized for. */
  function ResolvedTier(c: Context, kernel: nat): nat {
    match ScanFrom(c.table, kernel, 0)
    case Some(i) => c.table[i].tier
    case None => BlobWalk(c.useCoopmat, kernel, c.activeTier)
  }

  /** The tier whose pipeline the lookup returns; -1 if none is cached. */
  function BoundTier(t: Table, q: Request, tier: int): int
    decreases tier + 1
  {
    if tier < 0 then -1
    else if LookupHandle(t, GemmSlot(RequestKey(q, tier)), RequestKey(q, tier)) != 0 then tier
    else BoundTier(t, q, tier - 1)
  }

  // ---------------------------------------------------------------- resolved tier against bound tier

  lemma {:induction false} ScanSound(t: Table, kernel: nat, i: nat)
    requires i <= CAPACITY && forall p: nat :: p < i ==> !EntryFor(t[p], kernel)
    ensures match ScanFrom(t, kernel, i)
            case Some(s) => s < CAPACITY && EntryFor(t[s], kernel) && forall p: nat :: p < s ==> !EntryFor(t[p], kernel)
            case None => forall p: nat :: p < CAPACITY ==> !EntryFor(t[p], kernel)
    decreases CAPACITY - i
  {
    if i < CAPACITY && !EntryFor(t[i], kernel) {
      ScanSound(t, kernel, i + 1);
    }
  }

  /** Without an entry the walk picks the highest tier up to the active one that has the kernel, or the baseline. */
  lemma {:induction false} BlobWalkIsHighest(useCoopmat: bool, kernel: nat, top: int)
    ensures var t := BlobWalk(useCoopmat, kernel, top);
            if exists u: nat :: u <= top && HasGemmBlob(useCoopmat, kernel, u)
            then t <= top && HasGemmBlob(useCoopmat, kernel, t) &&
                 forall u: nat :: u <= top && HasGemmBlob(useCoopmat, kernel, u) ==> u <= t
            else t == 0
    decreases top + 1
  {
    hide HasGemmBlob;
    if top >= 0 && !HasGemmBlob(useCoopmat, kernel, top) {
      BlobWalkIsHighest(useCoopmat, kernel, top - 1);
    }
  }

  lemma {:induction false} BoundIsCached(t: Table, q: Request, top: int)
    requires TableOk(t) && PublicRequest(q) && -1 <= top <= COOPMATRIX
    ensures var v := BoundTier(t, q, top);
            && -1 <= v <= top
            && (v >= 0 <==> CachedFrom(t, q, top) != 0)
            && (v >= 0 ==> CachedAt(t, q, v) && CachedFrom(t, q, top) == Contents(t)[RequestKey(q, v)])
    decreases top + 1
  {
    hide TableOk, RequestKey, GemmSlot, LookupHandle, PublicRequest, Contents, CachedAt;
    if top >= 0 {
      TierAnswer(t, q, top);
      BoundIsCached(t, q, top - 1);
    }
  }

  /** The entries of a quantized kernel are its GEMM entries: their key is determined by their tier. */
  lemma QgemmEntryKey(t: Table, kernel: nat, p: nat)
    requires TableOk(t) && IsQgemm(kernel) && p < CAPACITY && EntryFor(t[p], kernel)
    ensures GemmShaped(t[p]) && t[p].tier <= COOPMATRIX
    ensures t[p].key == RequestKey(QgemmRequest(kernel), t[p].tier)
  {
    assert EntryOk(t[p]);
  }

  /** The entry stored under a quantized kernel's key at tier v records tier v. */
  lemma QgemmKeyEntry(t: Table, kernel: nat, v: nat)
    requires TableOk(t) && IsQgemm(kernel) && v <= COOPMATRIX && CachedAt(t, QgemmRequest(kernel), v)
    ensures var p := SlotOf(t, RequestKey(QgemmRequest(kernel), v));
            EntryFor(t[p], kernel) && t[p].tier == v
  {
    var q := QgemmRequest(kernel);
    var p := SlotOf(t, RequestKey(q, v));
    var e := t[p];
    assert EntryOk(e);
    RequestFamily(q);
    if L1L2Shaped(e) {
      var k: nat :| PublicConfig(L1L2Config(k, e.dataType)) && e.key == L1L2Key(k, e.dataType);
      KeyFamily(L1L2Config(k, e.dataType));
    }
    assert GemmShaped(e);
    ShapeDeterminesTier(e, kernel, v);
  }

  lemma ShapeDeterminesTier(e: Entry, kernel: nat, v: nat)
    requires GemmShaped(e) && IsQgemm(kernel) && v <= COOPMATRIX
    requires e.key == RequestKey(QgemmRequest(kernel), v)
    ensures e.dataType == kernel && e.transA == 0 && e.transB == 0 && e.strided == 0 && e.tier == v
  {
    GemmKeyInjective(e.dataType, e.transA, e.transB, e.strided, e.tier, kernel, 0, 0, 0, v);
  }

  /** Exactly when the scan finds the bound pipeline's tier: no entry of the kernel sits before its slot. */
  lemma ResolvedExactly(c: Context, kernel: nat)
    requires Invariant(c) && IsQgemm(kernel)
    requires CachedFrom(c.table, QgemmRequest(kernel), c.activeTier) != 0
    ensures var v := BoundTier(c.table, QgemmRequest(kernel), c.activeTier);
            && 0 <= v <= c.activeTier && CachedAt(c.table, QgemmRequest(kernel), v)
            && (ResolvedTier(c, kernel) == v <==>
                forall p: nat :: p < SlotOf(c.table, RequestKey(QgemmRequest(kernel), v)) ==>
                                 !EntryFor(c.table[p], kernel))
  {
    var t, q := c.table, QgemmRequest(kernel);
    BoundIsCached(t, q, c.activeTier);
    var v := BoundTier(t, q, c.activeTier);
    QgemmKeyEntry(t, kernel, v);
    var s := SlotOf(t, RequestKey(q, v));
    ScanSound(t, kernel, 0);
    var i := ScanFrom(t, kernel, 0).value;
    QgemmEntryKey(t, kernel, i);
    hide RequestKey, GemmShaped, EntryFor;
    assert i <= s;
    if t[i].tier == v {
      assert i == s;
    }
  }

  // ---------------------------------------------------------------- runs that never lower the tier

  ghost predicate SameConfig(e: Entry, e': Entry) {
    e.dataType == e'.dataType && e.transA == e'.transA && e.transB == e'.transB && e.strided == e'.strided
  }

  ghost predicate IsGemm(t: Table, p: nat) {
    p < CAPACITY && t[p].valid && GemmShaped(t[p])
  }

  /** No GEMM entry lies above the active tier, and no configuration has two entries. */
  ghost predicate Settled(c: Context) {
    && (forall p: nat :: IsGemm(c.table, p) ==> c.table[p].tier <= c.activeTier)
    && (forall p: nat, p': nat ::
          IsGemm(c.table, p) && IsGemm(c.table, p') && SameConfig(c.table[p], c.table[p']) ==> p == p')
  }

  /** Re-detection does not lower the tier, except while the table is empty. */
  ghost predicate Raises(c: Context, op: Op) {
    op.RedetectOp? ==> Step(c, op).activeTier >= c.activeTier || forall p: nat :: p < CAPACITY ==> !c.table[p].valid
  }

  ghost predicate RaisingRun(c: Context, ops: seq<Op>)
    decreases |ops|
  {
    ops == [] || (Raises(c, ops[0]) && RaisingRun(Step(c, ops[0]), ops[1..]))
  }

  /** t' is t, or t with a GEMM entry of the request's configuration stored at a tier up to `top`. */
  ghost predicate StoresFor(t: Table, t': Table, q: Request, top: int) {
    t' == t || exists s: nat, e: Entry :: StoredFor(t, s, e, q, top) && t' == t[s := e]
  }

  ghost predicate StoredFor(t: Table, s: nat, e: Entry, q: Request, top: int) {
    && s < CAPACITY && !t[s].valid && e.valid && GemmShaped(e) && e.tier <= top
    && e.dataType == q.dtype && e.transA == q.transA && e.transB == q.transB && e.strided == q.strided
  }

  lemma {:induction false} CreateStores(c: Context, q: Request, driver: Driver, tier: int, last: int)
    requires PublicRequest(q) && tier <= COOPMATRIX
    ensures StoresFor(c.table, CreateFrom(c, q, driver, tier, last).0.table, q, tier)
    decreases tier + 1
  {
    hide HasGemmBlob, RequestKey, GemmSlot, PublicRequest, AttemptEvents, Store, GemmEntry, StoresFor;
    if tier < 0 {
      NothingStored(c.table, q, tier);
    } else if !HasGemmBlob(c.useCoopmat, q.dtype, tier) {
      CreateStores(c, q, driver, tier - 1, last);
      WeakenTier(c.table, CreateFrom(c, q, driver, tier - 1, last).0.table, q, tier - 1, tier);
    } else {
      var c1 := c.(trace := c.trace + AttemptEvents(driver(tier)));
      if driver(tier).Created? {
        StoreOne(c1, q, tier, driver(tier).handle);
      } else {
        CreateStores(c1, q, driver, tier - 1, ErrorOf(driver(tier)));
        WeakenTier(c.table, CreateFrom(c1, q, driver, tier - 1, ErrorOf(driver(tier))).0.table, q, tier - 1, tier);
      }
    }
  }

  lemma NothingStored(t: Table, q: Request, top: int)
    ensures StoresFor(t, t, q, top)
  {
  }

  lemma WeakenTier(t: Table, t': Table, q: Request, below: int, top: int)
    requires StoresFor(t, t', q, below) && below <= top
    ensures StoresFor(t, t', q, top)
  {
    if t' != t {
      var s: nat, e: Entry :| StoredFor(t, s, e, q, below) && t' == t[s := e];
      assert StoredFor(t, s, e, q, top);
    }
  }

  lemma StoreOne(c: Context, q: Request, tier: nat, handle: Handle)
    requires PublicRequest(q) && HasGemmBlob(c.useCoopmat, q.dtype, tier)
    ensures StoresFor(c.table, Store(c, GemmSlot(RequestKey(q, tier)), GemmEntry(q, tier, handle)).table, q, tier)
  {
    hide HasGemmBlob, GemmKey, GemmSlot, GemmShaped;
    var h, e := GemmSlot(RequestKey(q, tier)), GemmEntry(q, tier, handle);
    HoleSound(c.table, h, 0);
    RequestTierEntry(q, tier, c.useCoopmat, handle);
    var i := HoleIndex(c.table, h, 0);
    if i.Some? {
      assert StoredFor(c.table, Slot(h, i.value), e, q, tier);
    }
  }

  lemma RequestTierEntry(q: Request, tier: nat, useCoopmat: bool, handle: Handle)
    requires PublicRequest(q) && HasGemmBlob(useCoopmat, q.dtype, tier)
    ensures var e := GemmEntry(q, tier, handle);
            && GemmShaped(e) && e.valid && e.tier == tier
            && e.dataType == q.dtype && e.transA == q.transA && e.transB == q.transB && e.strided == q.strided
  {
    hide GemmKey, HasGemmBlob, IsPlainGemm, L1L2Shaped, LayoutOf, GemmSlot, Home, EntryOk, GemmShaped;
    RequestEntry(q, tier, useCoopmat, handle);
  }

  lemma EnsureSettled(c: Context, q: Request, driver: Driver)
    requires Invariant(c) && Settled(c) && PublicRequest(q)
    ensures Settled(EnsureGemm(c, q, driver).0)
  {
    if CachedFrom(c.table, q, c.activeTier) == 0 {
      hide Settled, TableOk, Accounted, CachedAt, CachedFrom, PublicRequest;
      NothingCachedHere(c, q);
      CreateStores(c, q, driver, c.activeTier, FEATURE_NOT_PRESENT);
      EnsureGemmKeeps(c, q, driver);
      hide CreateFrom, StoredFor;
      var c' := EnsureGemm(c, q, driver).0;
      if c'.table != c.table {
        var s: nat, e: Entry :| StoredFor(c.table, s, e, q, c.activeTier) && c'.table == c.table[s := e];
        StoredSettled(c, c', q, s, e);
      } else {
        SameTableSettled(c, c');
      }
    }
  }

  lemma SameTableSettled(c: Context, c': Context)
    requires Settled(c) && c'.table == c.table && c'.activeTier >= c.activeTier
    ensures Settled(c')
  {
    hide GemmShaped;
  }

  /** The first entry of a configuration that is not cached at any tier up to the active one. */
  lemma StoredSettled(c: Context, c': Context, q: Request, s: nat, e: Entry)
    requires Settled(c) && StoredFor(c.table, s, e, q, c.activeTier)
    requires c'.table == c.table[s := e] && c'.activeTier == c.activeTier
    requires forall v: nat :: v <= c.activeTier ==> !CachedAt(c.table, q, v)
    ensures Settled(c')
  {
    hide GemmShaped, CachedAt;
    forall p: nat | IsGemm(c.table, p) ensures !SameConfig(c.table[p], e) {
      if SameConfig(c.table[p], e) {
        EntryIsCached(c, q, p);
      }
    }
    forall p: nat | IsGemm(c'.table, p) && p != s ensures IsGemm(c.table, p) && c'.table[p] == c.table[p] {
    }
  }

  /** A GEMM entry of the request's configuration is a cached tier of the request. */
  lemma EntryIsCached(c: Context, q: Request, p: nat)
    requires Settled(c) && IsGemm(c.table, p)
    requires var e := c.table[p];
             e.dataType == q.dtype && e.transA == q.transA && e.transB == q.transB && e.strided == q.strided
    ensures c.table[p].tier <= c.activeTier && CachedAt(c.table, q, c.table[p].tier)
  {
  }

  lemma StepSettled(c: Context, op: Op)
    requires Invariant(c) && Settled(c) && PublicOp(op) && Raises(c, op)
    ensures Settled(Step(c, op))
  {
    match op {
      case GemmOp(q, driver) => EnsureSettled(c, q, driver);
      case L1L2Op(kernel, dtype, reply) =>
        EnsureL1L2Keeps(c, kernel, dtype, reply);
        L1L2Settled(c, Step(c, op));
      case FlushOp =>
      case RedetectOp(_, _) =>
    }
  }

  lemma L1L2Settled(c: Context, c': Context)
    requires Settled(c) && Grows(c, c', FromL1L2)
    ensures Settled(c')
  {
    if c'.table != c.table {
      var s: nat, e: Entry :| Stored(c.table, s, e) && Produces(FromL1L2, e.key) && c'.table == c.table[s := e];
      if GemmShaped(e) {
        KeyFamily(GemmConfig(e.dataType, e.transA, e.transB, e.strided, e.tier));
      }
    }
  }

  lemma {:induction false} RunSettled(c: Context, ops: seq<Op>)
    requires Invariant(c) && Settled(c) && PublicRun(ops) && RaisingRun(c, ops)
    ensures Invariant(Run(c, ops)) && Settled(Run(c, ops))
    decreases |ops|
  {
    if ops != [] {
      StepKeeps(c, ops[0]);
      StepSettled(c, ops[0]);
      RunSettled(Step(c, ops[0]), ops[1..]);
    }
  }

  /** In a settled context the grid is sized for the pipeline that was bound. */
  lemma SettledResolves(c: Context, kernel: nat)
    requires Invariant(c) && Settled(c) && IsQgemm(kernel)
    requires CachedFrom(c.table, QgemmRequest(kernel), c.activeTier) != 0
    ensures ResolvedTier(c, kernel) == BoundTier(c.table, QgemmRequest(kernel), c.activeTier)
  {
    hide TableOk, Accounted, CachedAt, CachedFrom, BoundTier, ResolvedTier, EntryFor, RequestKey, LookupHandle;
    var t, q := c.table, QgemmRequest(kernel);
    ResolvedExactly(c, kernel);
    var v := BoundTier(t, q, c.activeTier);
    QgemmKeyEntry(t, kernel, v);
    var s := SlotOf(t, RequestKey(q, v));
    hide SlotOf, Settled;
    forall p: nat | p < s ensures !EntryFor(t[p], kernel) {
      if EntryFor(t[p], kernel) {
        OneEntryPerKernel(c, kernel, p, s);
      }
    }
  }

  lemma OneEntryPerKernel(c: Context, kernel: nat, p: nat, s: nat)
    requires TableOk(c.table) && Settled(c) && IsQgemm(kernel) && p < CAPACITY && s < CAPACITY
    requires EntryFor(c.table[p], kernel) && EntryFor(c.table[s], kernel)
    ensures p == s
  {
    hide TableOk, GemmShaped, RequestKey;
    QgemmEntryKey(c.table, kernel, p);
    QgemmEntryKey(c.table, kernel, s);
  }

  /** A quantized GEMM issued after any run from a fresh context that never lowers the tier of a non-empty table. */
  lemma QgemmTierAgrees(caps: Option<Capabilities>, optIn: bool, ops: seq<Op>, kernel: nat, driver: Driver)
    requires PublicRun(ops) && RaisingRun(NewContext(caps, optIn), ops) && IsQgemm(kernel)
    requires EnsureGemm(Run(NewContext(caps, optIn), ops), QgemmRequest(kernel), driver).1.Got?
    ensures var c := EnsureGemm(Run(NewContext(caps, optIn), ops), QgemmRequest(kernel), driver).0;
            ResolvedTier(c, kernel) == BoundTier(c.table, QgemmRequest(kernel), c.activeTier)
  {
    var c0 := NewContext(caps, optIn);
    NewContextInvariant(caps, optIn);
    RunSettled(c0, ops);
    var c := Run(c0, ops);
    EnsureGemmKeeps(c, QgemmRequest(kernel), driver);
    EnsureSettled(c, QgemmRequest(kernel), driver);
    SuccessIsCached(c, QgemmRequest(kernel), driver);
    SettledResolves(EnsureGemm(c, QgemmRequest(kernel), driver).0, kernel);
  }

  // ---------------------------------------------------------------- the grid

  datatype Tile = Tile(rows: nat, columns: nat)

  /** The output block the host assumes when it sizes the grid. */
  function TileOf(kernel: nat, tier: nat): Tile {
    if tier == SUBGROUP && IsQgemm(kernel) then Tile(32, 8) else Tile(16, 16)
  }

  /** Workgroups launched along one dimension. */
  function GroupsFor(extent: nat, tile: nat): nat
    requires tile > 0
  {
    Quotient(extent + tile - 1, tile)
  }

  /** Workgroup (gx, gy) of a kernel with this tile writes cell (row, column). */
  predicate Writes(tile: Tile, gx: nat, gy: nat, row: nat, column: nat) {
    gx * tile.rows <= row < gx * tile.rows + tile.rows && gy * tile.columns <= column < gy * tile.columns + tile.columns
  }

  lemma GroupUnique(tile: nat, g: nat, i: nat)
    requires tile > 0
    ensures g * tile <= i < g * tile + tile <==> g == Quotient(i, tile)
  {
    if g * tile <= i < g * tile + tile {
      DivModUnique(i, tile, g, i - g * tile);
    }
  }

  lemma GroupLaunched(extent: nat, tile: nat, i: nat)
    requires tile > 0
    ensures Quotient(i, tile) < GroupsFor(extent, tile) <==> Quotient(i, tile) * tile < extent
  {
    var g, n := Quotient(i, tile), GroupsFor(extent, tile);
    assert extent + tile - 1 == tile * n + (extent + tile - 1) % tile;
    if g < n {
      MulGap(tile, g, n);
    } else {
      MulMonotone(tile, n, g);
    }
  }

  ghost predicate Busy(tile: Tile, gx: nat, gy: nat, n: nat, m: nat) {
    exists row: nat, column: nat :: row < n && column < m && Writes(tile, gx, gy, row, column)
  }

  ghost predicate Launched(gridX: nat, gridY: nat, gx: nat, gy: nat) {
    gx < gridX && gy < gridY
  }

  /** Some launched workgroup writes the cell, and no other workgroup does. */
  ghost predicate WrittenOnce(tile: Tile, gridX: nat, gridY: nat, row: nat, column: nat) {
    exists gx: nat, gy: nat :: Launched(gridX, gridY, gx, gy) && Writes(tile, gx, gy, row, column)
      && forall gx': nat, gy': nat :: Writes(tile, gx', gy', row, column) ==> gx' == gx && gy' == gy
  }

  /** Every cell of the n x m output is written by exactly one workgroup and no workgroup is empty. */
  ghost predicate ExactCover(tile: Tile, gridX: nat, gridY: nat, n: nat, m: nat) {
    && (forall row: nat, column: nat :: row < n && column < m ==> WrittenOnce(tile, gridX, gridY, row, column))
    && (forall gx: nat, gy: nat :: Launched(gridX, gridY, gx, gy) ==> Busy(tile, gx, gy, n, m))
  }

  lemma CellWrittenOnce(tile: Tile, n: nat, m: nat, row: nat, column: nat)
    requires tile.rows > 0 && tile.columns > 0 && row < n && column < m
    ensures WrittenOnce(tile, GroupsFor(n, tile.rows), GroupsFor(m, tile.columns), row, column)
  {
    var gx, gy := Quotient(row, tile.rows), Quotient(column, tile.columns);
    GroupUnique(tile.rows, gx, row);
    GroupUnique(tile.columns, gy, column);
    GroupLaunched(n, tile.rows, row);
    GroupLaunched(m, tile.columns, column);
    assert Launched(GroupsFor(n, tile.rows), GroupsFor(m, tile.columns), gx, gy);
    assert Writes(tile, gx, gy, row, column);
    forall gx': nat, gy': nat | Writes(tile, gx', gy', row, column) ensures gx' == gx && gy' == gy {
      GroupUnique(tile.rows, gx', row);
      GroupUnique(tile.columns, gy', column);
    }
  }

  lemma GroupBusy(tile: Tile, n: nat, m: nat, gx: nat, gy: nat)
    requires tile.rows > 0 && tile.columns > 0
    requires Launched(GroupsFor(n, tile.rows), GroupsFor(m, tile.columns), gx, gy)
    ensures Busy(tile, gx, gy, n, m)
  {
    GroupUnique(tile.rows, gx, gx * tile.rows);
    GroupUnique(tile.columns, gy, gy * tile.columns);
    GroupLaunched(n, tile.rows, gx * tile.rows);
    GroupLaunched(m, tile.columns, gy * tile.columns);
    assert Writes(tile, gx, gy, gx * tile.rows, gy * tile.columns);
  }

  lemma GridCovers(tile: Tile, n: nat, m: nat)
    requires tile.rows > 0 && tile.columns > 0
    ensures ExactCover(tile, GroupsFor(n, tile.rows), GroupsFor(m, tile.columns), n, m)
  {
    hide WrittenOnce, Busy, GroupsFor, Launched;
    forall row: nat, column: nat | row < n && column < m
      ensures WrittenOnce(tile, GroupsFor(n, tile.rows), GroupsFor(m, tile.columns), row, column)
    {
      CellWrittenOnce(tile, n, m, row, column);
    }
    forall gx: nat, gy: nat | Launched(GroupsFor(n, tile.rows), GroupsFor(m, tile.columns), gx, gy)
      ensures Busy(tile, gx, gy, n, m)
    {
      GroupBusy(tile, n, m, gx, gy);
    }
  }

  // ---------------------------------------------------------------- what the kernels write

  /** The cell that an invocation of a workgroup writes in one iteration of its output loop, if it writes one. The
      baseline kernels run 16 x 16 invocations with one cell each; the subgroup kernels 32 lanes with a row each and
      eight columns in a row; the cooperative-matrix kernels 32 lanes that stride over a 16 x 16 block. */
  predicate ThreadWrites(tier: nat, gx: nat, gy: nat, thread: nat, step: nat, row: nat, column: nat) {
    if tier == SUBGROUP then
      thread < 32 && step < 8 && row == gx * 32 + thread && column == gy * 8 + step
    else if tier == COOPMATRIX then
      var i := thread + 32 * step;
      thread < 32 && i < 256 && row == gx * 16 + i / 16 && column == gy * 16 + i % 16
    else
      thread < 256 && step == 0 && row == gx * 16 + thread % 16 && column == gy * 16 + thread / 16
  }

  /** The block that follows from that: 32 by 8 for the subgroup kernels, 16 by 16 for the others. */
  function KernelBlock(tier: nat): Tile {
    if tier == SUBGROUP then Tile(32, 8) else Tile(16, 16)
  }

  /** The invocation and iteration that write a cell of the block. */
  function Writer(tier: nat, gx: nat, gy: nat, row: nat, column: nat): (nat, nat)
    requires Writes(KernelBlock(tier), gx, gy, row, column)
  {
    if tier == SUBGROUP then (row - gx * 32, column - gy * 8)
    else
      var a: nat, b: nat := row - gx * 16, column - gy * 16;
      if tier == COOPMATRIX then ((16 * a + b) % 32, (16 * a + b) / 32) else (16 * b + a, 0)
  }

  lemma LaneOf(thread: nat, step: nat)
    requires thread < 32 && step < 8
    ensures var i := thread + 32 * step; i / 16 < 16 && i % 16 < 16 && 16 * (i / 16) + i % 16 == i
    ensures (thread + 32 * step) % 32 == thread && (thread + 32 * step) / 32 == step
  {
  }

  lemma CellOfLane(a: nat, b: nat)
    requires a < 16 && b < 16
    ensures var i := 16 * a + b; i % 32 < 32 && i / 32 < 8 && i == i % 32 + 32 * (i / 32) && i / 16 == a && i % 16 == b
    ensures (16 * b + a) % 16 == a && (16 * b + a) / 16 == b
  {
  }

  lemma OneWriter(tier: nat, gx: nat, gy: nat, thread: nat, step: nat, row: nat, column: nat)
    requires ThreadWrites(tier, gx, gy, thread, step, row, column)
    ensures Writes(KernelBlock(tier), gx, gy, row, column) && (thread, step) == Writer(tier, gx, gy, row, column)
  {
    if tier == COOPMATRIX {
      LaneOf(thread, step);
    } else if tier != SUBGROUP {
      assert thread == 16 * (thread / 16) + thread % 16;
    }
  }

  lemma WriterWrites(tier: nat, gx: nat, gy: nat, row: nat, column: nat)
    requires Writes(KernelBlock(tier), gx, gy, row, column)
    ensures var w := Writer(tier, gx, gy, row, column); ThreadWrites(tier, gx, gy, w.0, w.1, row, column)
  {
    if tier != SUBGROUP {
      CellOfLane(row - gx * 16, column - gy * 16);
    }
  }

  /** A workgroup of the kernel writes exactly the cells of its block, each of them once. */
  lemma KernelWritesBlock(tier: nat, gx: nat, gy: nat, row: nat, column: nat)
    ensures (exists thread: nat, step: nat :: ThreadWrites(tier, gx, gy, thread, step, row, column)) <==>
            Writes(KernelBlock(tier), gx, gy, row, column)
    ensures forall thread: nat, step: nat ::
              ThreadWrites(tier, gx, gy, thread, step, row, column) ==>
              Writes(KernelBlock(tier), gx, gy, row, column) &&
              (thread, step) == Writer(tier, gx, gy, row, column)
  {
    hide ThreadWrites, Writes, KernelBlock, Writer;
    forall thread: nat, step: nat | ThreadWrites(tier, gx, gy, thread, step, row, column)
      ensures Writes(KernelBlock(tier), gx, gy, row, column) && (thread, step) == Writer(tier, gx, gy, row, column)
    {
      OneWriter(tier, gx, gy, thread, step, row, column);
    }
    if Writes(KernelBlock(tier), gx, gy, row, column) {
      WriterWrites(tier, gx, gy, row, column);
      var w := Writer(tier, gx, gy, row, column);
      assert ThreadWrites(tier, gx, gy, w.0, w.1, row, column);
    }
  }

  /** For the quantized kernels the host assumes the block the kernel writes, at every tier. */
  lemma TileIsBlock(kernel: nat, tier: nat)
    requires IsQgemm(kernel)
    ensures TileOf(kernel, tier) == KernelBlock(tier)
  {
  }

  /** The dispatched grid covers the output exactly with the kernel that is bound, if the tiers agree. */
  lemma DispatchCovers(c: Context, kernel: nat, n: nat, m: nat)
    requires Invariant(c) && Settled(c) && IsQgemm(kernel)
    requires CachedFrom(c.table, QgemmRequest(kernel), c.activeTier) != 0
    ensures var bound := BoundTier(c.table, QgemmRequest(kernel), c.activeTier);
            var sized := TileOf(kernel, ResolvedTier(c, kernel));
            bound >= 0 && ExactCover(KernelBlock(bound), GroupsFor(n, sized.rows), GroupsFor(m, sized.columns), n, m)
  {
    SettledResolves(c, kernel);
    ResolvedExactly(c, kernel);
    TileIsBlock(kernel, ResolvedTier(c, kernel));
    GridCovers(TileOf(kernel, ResolvedTier(c, kernel)), n, m);
  }

  /** The same for the dispatch after any such run: every cell of the output has exactly one workgroup of the kernel
      that was bound, and no workgroup is idle. */
  lemma QgemmRunCovers(caps: Option<Capabilities>, optIn: bool, ops: seq<Op>, kernel: nat, driver: Driver,
                       n: nat, m: nat)
    requires PublicRun(ops) && RaisingRun(NewContext(caps, optIn), ops) && IsQgemm(kernel)
    requires EnsureGemm(Run(NewContext(caps, optIn), ops), QgemmRequest(kernel), driver).1.Got?
    ensures var c := EnsureGemm(Run(NewContext(caps, optIn), ops), QgemmRequest(kernel), driver).0;
            var bound := BoundTier(c.table, QgemmRequest(kernel), c.activeTier);
            var sized := TileOf(kernel, ResolvedTier(c, kernel));
            bound >= 0 && ExactCover(KernelBlock(bound), GroupsFor(n, sized.rows), GroupsFor(m, sized.columns), n, m)
  {
    hide ExactCover;
    var c0 := NewContext(caps, optIn);
    NewContextInvariant(caps, optIn);
    RunSettled(c0, ops);
    EnsureGemmKeeps(Run(c0, ops), QgemmRequest(kernel), driver);
    EnsureSettled(Run(c0, ops), QgemmRequest(kernel), driver);
    SuccessIsCached(Run(c0, ops), QgemmRequest(kernel), driver);
    DispatchCovers(EnsureGemm(Run(c0, ops), QgemmRequest(kernel), driver).0, kernel, n, m);
  }

  // ---------------------------------------------------------------- a grid sized for another tile

  /** Every cell of the n x m output is written by exactly one workgroup. */
  ghost predicate Covers(tile: Tile, gridX: nat, gridY: nat, n: nat, m: nat) {
    forall row: nat, column: nat :: row < n && column < m ==> WrittenOnce(tile, gridX, gridY, row, column)
  }

  lemma WriterIs(tile: Tile, gx: nat, gy: nat, row: nat, column: nat)
    requires tile.rows > 0 && tile.columns > 0
    ensures Writes(tile, gx, gy, row, column) <==>
            gx == Quotient(row, tile.rows) && gy == Quotient(column, tile.columns)
  {
    GroupUnique(tile.rows, gx, row);
    GroupUnique(tile.columns, gy, column);
  }

  /** A cell is written exactly once if and only if its own workgroup is launched. */
  lemma WrittenWhenLaunched(tile: Tile, gridX: nat, gridY: nat, row: nat, column: nat)
    requires tile.rows > 0 && tile.columns > 0
    ensures WrittenOnce(tile, gridX, gridY, row, column) <==>
            Launched(gridX, gridY, Quotient(row, tile.rows), Quotient(column, tile.columns))
  {
    hide Quotient, Writes;
    forall gx: nat, gy: nat
      ensures Writes(tile, gx, gy, row, column) <==>
              gx == Quotient(row, tile.rows) && gy == Quotient(column, tile.columns)
    {
      WriterIs(tile, gx, gy, row, column);
    }
  }

  /** The workgroups of indices below `extent` are those below the rounded-up count, and all of them occur. */
  lemma LastGroup(extent: nat, tile: nat)
    requires extent > 0 && tile > 0
    ensures GroupsFor(extent, tile) > 0
    ensures Quotient(extent - 1, tile) == GroupsFor(extent, tile) - 1
    ensures forall i: nat :: i < extent ==> Quotient(i, tile) < GroupsFor(extent, tile)
  {
    var n := GroupsFor(extent, tile);
    forall i: nat | i < extent ensures Quotient(i, tile) < n {
      GroupUnique(tile, Quotient(i, tile), i);
      GroupLaunched(extent, tile, i);
    }
    var q, r := (extent - 1) / tile, (extent - 1) % tile;
    assert extent - 1 == tile * q + r && tile * (q + 1) == tile * q + tile;
    DivModUnique(extent + tile - 1, tile, q + 1, r);
  }

  /** For every tile, grid and output: the grid covers the output exactly when it has, along both dimensions, at least
      the workgroups the tile needs. */
  lemma CoversWhen(tile: Tile, gridX: nat, gridY: nat, n: nat, m: nat)
    requires tile.rows > 0 && tile.columns > 0 && n > 0 && m > 0
    ensures Covers(tile, gridX, gridY, n, m) <==>
            gridX >= GroupsFor(n, tile.rows) && gridY >= GroupsFor(m, tile.columns)
  {
    hide WrittenOnce, GroupsFor, Quotient;
    LastGroup(n, tile.rows);
    LastGroup(m, tile.columns);
    var lastRow: nat, lastColumn: nat := n - 1, m - 1;
    WrittenWhenLaunched(tile, gridX, gridY, lastRow, lastColumn);
    assert Covers(tile, gridX, gridY, n, m) ==> WrittenOnce(tile, gridX, gridY, lastRow, lastColumn);
    if gridX >= GroupsFor(n, tile.rows) && gridY >= GroupsFor(m, tile.columns) {
      forall row: nat, column: nat | row < n && column < m ensures WrittenOnce(tile, gridX, gridY, row, column) {
        WrittenWhenLaunched(tile, gridX, gridY, row, column);
      }
    }
  }

  /** A launched workgroup is busy exactly when the tile needs it. */
  lemma BusyWhen(tile: Tile, gx: nat, gy: nat, n: nat, m: nat)
    requires tile.rows > 0 && tile.columns > 0 && n > 0 && m > 0
    ensures Busy(tile, gx, gy, n, m) <==> Launched(GroupsFor(n, tile.rows), GroupsFor(m, tile.columns), gx, gy)
  {
    hide GroupsFor, Quotient, Writes;
    if Launched(GroupsFor(n, tile.rows), GroupsFor(m, tile.columns), gx, gy) {
      GroupBusy(tile, n, m, gx, gy);
    }
    if Busy(tile, gx, gy, n, m) {
      var row: nat, column: nat :| row < n && column < m && Writes(tile, gx, gy, row, column);
      WriterIs(tile, gx, gy, row, column);
      LastGroup(n, tile.rows);
      LastGroup(m, tile.columns);
    }
  }

  /** No workgroup is idle either exactly when the grid is the one the tile needs. */
  lemma ExactCoverWhen(tile: Tile, gridX: nat, gridY: nat, n: nat, m: nat)
    requires tile.rows > 0 && tile.columns > 0 && n > 0 && m > 0
    ensures ExactCover(tile, gridX, gridY, n, m) <==>
            gridX == GroupsFor(n, tile.rows) && gridY == GroupsFor(m, tile.columns)
  {
    hide WrittenOnce, Busy, GroupsFor, Quotient;
    var needX, needY := GroupsFor(n, tile.rows), GroupsFor(m, tile.columns);
    CoversWhen(tile, gridX, gridY, n, m);
    LastGroup(n, tile.rows);
    LastGroup(m, tile.columns);
    if gridX == needX && gridY == needY {
      GridCovers(tile, n, m);
    } else if gridX >= needX && gridY >= needY {
      var gx: nat, gy: nat := gridX - 1, gridY - 1;
      BusyWhen(tile, gx, gy, n, m);
      assert Launched(gridX, gridY, gx, gy) && !Busy(tile, gx, gy, n, m);
    }
  }

  /** The counts for the two tiles in use, against each other. */
  lemma TileCounts(n: nat)
    requires n > 0
    ensures GroupsFor(n, 32) <= GroupsFor(n, 16) <= GroupsFor(n, 8)
    ensures GroupsFor(n, 32) == GroupsFor(n, 16) <==> n <= 16
    ensures GroupsFor(n, 16) == GroupsFor(n, 8) <==> n <= 8
  {
  }

  /** A grid sized for either tile, under the kernel of either tile: covered when the tiles agree, or when the output
      is small enough along the dimension in which the sized tile is the larger one; without idle workgroups when they
      agree or both dimensions are small. */
  lemma OtherTileCovers(kernel: nat, sizedTier: nat, boundTier: nat, n: nat, m: nat)
    requires n > 0 && m > 0
    ensures var sized, bound := TileOf(kernel, sizedTier), KernelBlock(boundTier);
            var gridX, gridY := GroupsFor(n, sized.rows), GroupsFor(m, sized.columns);
            && (Covers(bound, gridX, gridY, n, m) <==> sized == bound || if sized.rows == 32 then n <= 16 else m <= 8)
            && (ExactCover(bound, gridX, gridY, n, m) <==> sized == bound || (n <= 16 && m <= 8))
  {
    var sized, bound := TileOf(kernel, sizedTier), KernelBlock(boundTier);
    var gridX, gridY := GroupsFor(n, sized.rows), GroupsFor(m, sized.columns);
    hide Covers, ExactCover, GroupsFor;
    CoversWhen(bound, gridX, gridY, n, m);
    ExactCoverWhen(bound, gridX, gridY, n, m);
    TileCounts(n);
    TileCounts(m);
  }

  /** In every context that has an answer for the kernel, whatever re-detections came before: when the dispatched grid
      covers the output under the kernel that is bound, and when it does so without idle workgroups. */
  lemma DispatchCoversWhen(c: Context, kernel: nat, n: nat, m: nat)
    requires Invariant(c) && IsQgemm(kernel) && n > 0 && m > 0
    requires CachedFrom(c.table, QgemmRequest(kernel), c.activeTier) != 0
    ensures var v := BoundTier(c.table, QgemmRequest(kernel), c.activeTier);
            && v >= 0
            && var sized, bound := TileOf(kernel, ResolvedTier(c, kernel)), KernelBlock(v);
               var gridX, gridY := GroupsFor(n, sized.rows), GroupsFor(m, sized.columns);
               && (Covers(bound, gridX, gridY, n, m) <==>
                   sized == bound || if sized.rows == 32 then n <= 16 else m <= 8)
               && (ExactCover(bound, gridX, gridY, n, m) <==> sized == bound || (n <= 16 && m <= 8))
  {
    hide Invariant, Covers, ExactCover, ResolvedTier, BoundTier, CachedFrom, EntryFor, GroupsFor;
    ResolvedExactly(c, kernel);
    OtherTileCovers(kernel, ResolvedTier(c, kernel), BoundTier(c.table, QgemmRequest(kernel), c.activeTier), n, m);
  }

  // ---------------------------------------------------------------- a run that lowers the tier

  /** Keys of the Q4_K kernel at the two lower tiers. */
  lemma Q4KKeys()
    ensures RequestKey(QgemmRequest(6), 0) == 165075700554 && RequestKey(QgemmRequest(6), 1) == 165075730345
  {
    hide GemmKey;
    GemmKeyIsNumeral(6, 0, 0, 0, 0);
    GemmKeyIsNumeral(6, 0, 0, 0, 1);
  }

  /** Their home slots. */
  lemma Q4KSlots()
    ensures GemmSlot(165075700554) == 220 && GemmSlot(165075730345) == 187
  {
    SmallXors();
    hide GemmSlot, Xor, And, U64;
    SlotOfLiteral(165075700554, 2579307821, 10, 44, 102022393680, 1568016968523022300);
    SlotOfLiteral(165075730345, 2579308286, 41, 15, 102022412054, 15744699927235787451);
  }

  lemma SmallXors()
    ensures Xor(10, 38) == 44 && Xor(41, 38) == 15
  {
    assert Xor(0, 1) == 1;
    assert Xor(1, 4) == 5 && Xor(2, 9) == 11 && Xor(5, 19) == 22;
    assert Xor(2, 2) == 0 && Xor(5, 4) == 1 && Xor(10, 9) == 3 && Xor(20, 19) == 7;
  }

  /** The slot of a key whose upper half is 38, from the quotient and remainder of the product by 2^64. */
  lemma SlotOfLiteral(key: nat, high: nat, low: nat, folded: nat, q: nat, rem: nat)
    requires key / 0x1_0000_0000 == 38 && key == high * 64 + low && low < 64
    requires folded == Xor(low, 38)
    requires (high * 64 + folded) * 0x9e37_79b9_7f4a_7c15 == q * WORD64 + rem && rem < WORD64
    ensures GemmSlot(key) == rem % 256
  {
    hide Xor, And;
    assert Xor(key, key / 0x1_0000_0000) == high * 64 + folded by {
      assert Pow2(6) == 64;
      XorLow(high, low, 38, 6);
    }
    assert U64(q * WORD64 + rem) == rem by {
      DivModUnique(q * WORD64 + rem, WORD64, q, rem);
    }
    SlotMask(rem);
  }

  /** A driver that creates the same pipeline at every tier. */
  function Answer(handle: Handle): Driver {
    (t: nat) => Created(handle)
  }

  /** Create a Q4_K pipeline at the subgroup tier, re-detect a device without subgroups, ask again. */
  function LoweredRun(): Context {
    var c0 := NewContext(Some(Capabilities(true, false)), false);
    var c1 := EnsureGemm(c0, QgemmRequest(6), Answer(7)).0;
    var c2 := Redetect(c1, Some(Capabilities(false, false)), false);
    EnsureGemm(c2, QgemmRequest(6), Answer(8)).0
  }

  /** An empty home slot takes the entry. */
  lemma StoreAtHome(c: Context, h: nat, e: Entry)
    requires h < CAPACITY && !c.table[h].valid
    ensures Store(c, h, e) == c.(table := c.table[h := e], count := c.count + 1)
  {
    assert Slot(h, 0) == h;
  }

  lemma LookupEmptyHome(t: Table, h: nat, key: nat)
    requires h < CAPACITY && !t[h].valid
    ensures LookupHandle(t, h, key) == 0
  {
    assert Slot(h, 0) == h;
  }

  lemma LookupAtHome(t: Table, h: nat, key: nat)
    requires h < CAPACITY && t[h].valid && t[h].key == key
    ensures LookupHandle(t, h, key) == t[h].pipeline
  {
    assert Slot(h, 0) == h;
  }

  /** A baseline pipeline is bound, but the grid is sized for the subgroup pipeline left in the table. */
  lemma LoweredTierMismatch()
    ensures var c := LoweredRun();
            && BoundTier(c.table, QgemmRequest(6), c.activeTier) == BASELINE
            && ResolvedTier(c, 6) == SUBGROUP
  {
    Q4KKeys();
    Q4KSlots();
    hide GemmSlot, RequestKey, Lookup, HoleIndex, Insert, Store, LookupHandle, ScanFrom;
    var q := QgemmRequest(6);
    var c0 := NewContext(Some(Capabilities(true, false)), false);
    LookupEmptyHome(c0.table, 187, RequestKey(q, 1));
    LookupEmptyHome(c0.table, 220, RequestKey(q, 0));
    assert CachedFrom(c0.table, q, 0) == 0;
    var r1 := CreateFrom(c0, q, Answer(7), 1, FEATURE_NOT_PRESENT);
    StoreAtHome(c0.(trace := c0.trace + AttemptEvents(Created(7))), 187, GemmEntry(q, 1, 7));
    var c2 := Redetect(r1.0, Some(Capabilities(false, false)), false);
    LookupEmptyHome(c2.table, 220, RequestKey(q, 0));
    StoreAtHome(c2.(trace := c2.trace + AttemptEvents(Created(8))), 220, GemmEntry(q, 0, 8));
    var c := LoweredRun();
    assert c.table == c0.table[187 := GemmEntry(q, 1, 7)][220 := GemmEntry(q, 0, 8)];
    LookupAtHome(c.table, 220, RequestKey(q, 0));
    ScanSound(c.table, 6, 0);
    assert EntryFor(c.table[187], 6);
  }

  lemma AnswerSucceeds(c: Context)
    requires c.activeTier == BASELINE
    ensures var r := EnsureGemm(c, QgemmRequest(6), Answer(8)); r.1.Got? && r.0.activeTier == BASELINE
  {
    hide GemmKey, GemmSlot, Store, CachedFrom;
    StoreKeepsTier(c.(trace := c.trace + AttemptEvents(Created(8))), GemmSlot(RequestKey(QgemmRequest(6), 0)),
                   GemmEntry(QgemmRequest(6), 0, 8));
  }

  lemma StoreKeepsTier(c: Context, h: nat, e: Entry)
    ensures Store(c, h, e).activeTier == c.activeTier
  {
  }

  /** The run is a public one, so its context is well formed, and the kernel has an answer in it. */
  lemma LoweredRunAnswers()
    ensures var c := LoweredRun();
            Invariant(c) && CachedFrom(c.table, QgemmRequest(6), c.activeTier) != 0
  {
    hide Invariant, CachedFrom, EnsureGemm, GemmKey;
    var q := QgemmRequest(6);
    var c0 := NewContext(Some(Capabilities(true, false)), false);
    NewContextInvariant(Some(Capabilities(true, false)), false);
    EnsureGemmKeeps(c0, q, Answer(7));
    var c1 := EnsureGemm(c0, q, Answer(7)).0;
    StepKeeps(c1, RedetectOp(Some(Capabilities(false, false)), false));
    var c2 := Redetect(c1, Some(Capabilities(false, false)), false);
    EnsureGemmKeeps(c2, q, Answer(8));
    AnswerSucceeds(c2);
    SuccessIsCached(c2, q, Answer(8));
  }

  /** For every output size: in the context of that run the grid, sized for the subgroup tile, covers the output under
      the bound baseline kernel if and only if there are at most 16 rows, and without idle workgroups if and only if
      there are at most 8 columns as well. A 32 x 32 output has a hole. */
  lemma MismatchLeavesHole(n: nat, m: nat)
    requires n > 0 && m > 0
    ensures var c := LoweredRun();
            var v := BoundTier(c.table, QgemmRequest(6), c.activeTier);
            && v >= 0
            && var sized, bound := TileOf(6, ResolvedTier(c, 6)), KernelBlock(v);
               && (Covers(bound, GroupsFor(n, sized.rows), GroupsFor(m, sized.columns), n, m) <==> n <= 16)
               && (ExactCover(bound, GroupsFor(n, sized.rows), GroupsFor(m, sized.columns), n, m) <==>
                   n <= 16 && m <= 8)
               && !Covers(bound, GroupsFor(32, sized.rows), GroupsFor(32, sized.columns), 32, 32)
  {
    hide LoweredRun, Covers, ExactCover, GroupsFor, ResolvedTier, BoundTier, CachedFrom, Invariant;
    LoweredTierMismatch();
    LoweredRunAnswers();
    DispatchCoversWhen(LoweredRun(), 6, n, m);
    DispatchCoversWhen(LoweredRun(), 6, 32, 32);
  }
}
