/**
 What one public call answers and stores, for every well-formed context, every request and every
 driver: the cached pipeline of the highest tier, a new one at the highest tier the driver accepts,
 or the error of the last tier tried.
 */
module PipelineAnswers {
  import opened PipelineTable
  import opened PipelineKeys
  import opened PipelineFallback
  import opened PipelineRuns
  import opened PipelineMemo
  import opened Wrappers

  /** Nothing the request could be answered with is cached at the active tier or below. */
  ghost predicate Misses(c: Context, q: Request) {
    forall v: nat :: v <= c.activeTier ==> !CachedAt(c.table, q, v)
  }

  /** The walk starts at the active tier: these are the tiers it may ask for. */
  ghost predicate MayTry(c: Context, q: Request, t: nat) {
    t <= c.activeTier && HasGemmBlob(c.useCoopmat, q.dtype, t)
  }

  ghost predicate Refuses(r: Reply, error: int) { r == ModuleRefused(error) || r == PipelineRefused(error) }

  /** A hit: the pipeline of the highest cached tier up to the active one, and nothing changes. */
  lemma EnsureHit(c: Context, q: Request, driver: Driver, u: nat)
    requires Invariant(c) && PublicRequest(q) && u <= c.activeTier && CachedAt(c.table, q, u)
    requires forall v: nat :: u < v <= c.activeTier ==> !CachedAt(c.table, q, v)
    ensures RequestKey(q, u) in Contents(c.table)
    ensures EnsureGemm(c, q, driver) == (c, Got(Contents(c.table)[RequestKey(q, u)]))
  {
    hide RequestKey, CachedFrom, Accounted;
    TableNonNull(c.table);
    RequestFamily(q);
    HighestCachedTierWins(c.table, q, c.activeTier, u);
    assert RequestKey(q, u) in Contents(c.table) by {
      CachedKeyIn(c.table, q, u);
    }
  }

  lemma CachedKeyIn(t: Table, q: Request, u: nat)
    requires CachedAt(t, q, u)
    ensures RequestKey(q, u) in Contents(t)
  {
  }

  /** On a miss the walk from the active tier decides. */
  lemma MissCreates(c: Context, q: Request, driver: Driver)
    requires Invariant(c) && PublicRequest(q) && Misses(c, q)
    ensures EnsureGemm(c, q, driver) == CreateFrom(c, q, driver, c.activeTier, -8)
  {
    hide CachedFrom, CreateFrom, Invariant;
    NothingCachedHere(c, q);
  }

  /** A miss with an accepting tier: the answer is what the driver created at the highest such tier up to the active
      one, and it is stored under the request's key at that tier; every other key keeps its pipeline. */
  lemma EnsureCreates(c: Context, q: Request, driver: Driver, t: nat)
    requires Invariant(c) && PublicRequest(q) && Misses(c, q)
    requires MayTry(c, q, t) && driver(t).Created?
    requires forall u: nat :: t < u && MayTry(c, q, u) ==> !driver(u).Created?
    ensures EnsureGemm(c, q, driver).1 == Got(driver(t).handle)
    ensures Contents(EnsureGemm(c, q, driver).0.table) == Contents(c.table)[RequestKey(q, t) := driver(t).handle]
  {
    hide Invariant, CachedFrom, CreateFrom, CachedAt, RequestKey, GemmSlot, Store, HasGemmBlob, Contents;
    MissCreates(c, q, driver);
    forall u: nat | t < u && Tried(c.useCoopmat, q.dtype, c.activeTier, u) ensures !driver(u).Created? {
      assert MayTry(c, q, u);
    }
    HighestCreatedTierWins(c, q, driver, c.activeTier, -8, t);
    StoredAtTier(c, q, t, driver(t).handle);
  }

  /** Storing the request's pipeline at an uncached tier, on the finite map. */
  lemma StoredAtTier(c: Context, q: Request, t: nat, handle: Handle)
    requires Invariant(c) && PublicRequest(q) && HasGemmBlob(c.useCoopmat, q.dtype, t) && !CachedAt(c.table, q, t)
    ensures Contents(Store(c, GemmSlot(RequestKey(q, t)), GemmEntry(q, t, handle)).table) ==
            Contents(c.table)[RequestKey(q, t) := handle]
  {
    hide GemmKey, GemmSlot, Home, Accounted, EntryOk, HasGemmBlob, Contents;
    RequestEntry(q, t, c.useCoopmat, handle);
    TableNeverFills(c.table);
    InsertedContents(c, GemmEntry(q, t, handle));
  }

  lemma InsertedContents(c: Context, e: Entry)
    requires WellFormed(c.table, Home) && HasHole(c.table) && e.valid && !HasKey(c.table, e.key)
    ensures Contents(Store(c, Home(e.key), e).table) == Contents(c.table)[e.key := e.pipeline]
  {
    hide WellFormed, HasKey, Home, Contents;
    InsertRefinesMap(c.table, Home, e);
    var p: nat :| p < CAPACITY && !c.table[p].valid;
    HomeIsSlot(e.key);
    HoleComplete(c.table, Home(e.key), p, 0);
  }

  lemma HomeIsSlot(key: nat)
    ensures Home(key) < CAPACITY
  {
  }

  /** A miss that every tier refuses: the error of the lowest tier that was tried; -8 when no tier has the kernel. The
      table stays as it is. */
  lemma EnsureRefused(c: Context, q: Request, driver: Driver)
    requires Invariant(c) && PublicRequest(q) && Misses(c, q)
    requires forall u: nat :: MayTry(c, q, u) ==> !driver(u).Created?
    ensures EnsureGemm(c, q, driver).0.table == c.table
    ensures (forall u: nat :: !MayTry(c, q, u)) ==> EnsureGemm(c, q, driver).1 == Failed(-8)
    ensures forall t: nat, e: int ::
              MayTry(c, q, t) && (forall u: nat :: MayTry(c, q, u) ==> t <= u) && Refuses(driver(t), e) ==>
              EnsureGemm(c, q, driver).1 == Failed(e)
  {
    hide Invariant, CachedFrom, CreateFrom, CachedAt, HasGemmBlob;
    MissCreates(c, q, driver);
    forall u: nat ensures MayTry(c, q, u) <==> Tried(c.useCoopmat, q.dtype, c.activeTier, u) {
    }
    LastRefusalIsReported(c, q, driver, c.activeTier, -8);
    ActiveTierBound(c);
    CreateKeeps(c, q, driver, c.activeTier, -8);
    forall t: nat, e: int
      | MayTry(c, q, t) && (forall u: nat :: MayTry(c, q, u) ==> t <= u) && Refuses(driver(t), e)
      ensures EnsureGemm(c, q, driver).1 == Failed(e)
    {
      assert LowestTried(c.useCoopmat, q.dtype, c.activeTier, t);
    }
  }

  lemma ActiveTierBound(c: Context)
    requires Invariant(c)
    ensures c.activeTier <= COOPMATRIX
  {
  }

  // ---------------------------------------------------------------- the other family

  /** One L1/L2 ensure, by cases: cached; no shader; created, and stored under the kernel's key; refused with the
      driver's own error. Only a creation changes the table. */
  lemma EnsureL1L2Answers(c: Context, kernel: nat, dtype: nat, reply: Reply)
    requires Invariant(c) && kernel <= 10 && dtype <= 1
    ensures var key, r := L1L2Key(kernel, dtype), EnsureL1L2(c, kernel, dtype, reply);
            if key in Contents(c.table) then r == (c, Got(Contents(c.table)[key]))
            else if dtype == 1 && 3 <= kernel <= 9 then r == (c, Failed(-8))
            else
              match reply
              case Created(h) => r.1 == Got(h) && Contents(r.0.table) == Contents(c.table)[key := h]
              case ModuleRefused(e) => r.1 == Failed(e) && r.0.table == c.table
              case PipelineRefused(e) => r.1 == Failed(e) && r.0.table == c.table
  {
    var key := L1L2Key(kernel, dtype);
    L1L2KeyValue(kernel, dtype);
    TableNonNull(c.table);
    LookupRefinesMap(c.table, Home, key);
    L1L2Blobs(kernel, dtype);
    hide L1L2Key, Accounted, EntryOk, HasL1L2Blob;
    assert key in Contents(c.table) <==> HasKey(c.table, key);
    if !HasKey(c.table, key) && HasL1L2Blob(kernel, dtype) && reply.Created? {
      L1L2EntryShape(kernel, dtype, c.activeTier, reply.handle);
      TableNeverFills(c.table);
      InsertedContents(c, L1L2Entry(kernel, dtype, c.activeTier, reply.handle));
    }
  }

  lemma L1L2Blobs(kernel: nat, dtype: nat)
    requires kernel <= 10 && dtype <= 1
    ensures HasL1L2Blob(kernel, dtype) <==> !(dtype == 1 && 3 <= kernel <= 9)
  {
  }

  // ---------------------------------------------------------------- what is stored

  /** A stored pipeline records its own request and tier; the convolution layout goes to exactly the convolution
      kernel. */
  lemma StoredDescription(q: Request, tier: nat, useCoopmat: bool, handle: Handle)
    requires PublicRequest(q) && HasGemmBlob(useCoopmat, q.dtype, tier)
    ensures var e := GemmEntry(q, tier, handle);
            && e.valid && e.pipeline == handle && e.key == RequestKey(q, tier)
            && e.dataType == q.dtype && e.tier == tier
            && e.transA == q.transA && e.transB == q.transB && e.strided == q.strided
            && (e.layout == ConvLayout <==> q.dtype == 60)
  {
    hide GemmKey;
  }

  /** The other family's entries record the data type and the active tier, and use the common layout. */
  lemma StoredL1L2Description(kernel: nat, dtype: nat, activeTier: nat, handle: Handle)
    requires activeTier <= 2
    ensures var e := L1L2Entry(kernel, dtype, activeTier, handle);
            && e.valid && e.pipeline == handle && e.key == L1L2Key(kernel, dtype)
            && e.dataType == dtype && e.tier == activeTier && e.layout == GemmLayout
            && e.transA == 0 && e.transB == 0 && e.strided == 0
  {
  }
}
