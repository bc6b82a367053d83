/**
 Memoisation over runs: once a pipeline has been obtained, every later request for it is
 answered from the table, with the same handle and without a driver call.
 */
module PipelineMemo {
  import opened PipelineTable
  import opened PipelineKeys
  import opened PipelineFallback
  import opened PipelineRuns

  /** A public call that may create a pipeline but neither flushes nor re-detects. */
  predicate CreatingOp(op: Op) {
    PublicOp(op) && (op.GemmOp? || op.L1L2Op?)
  }

  ghost predicate CreatingRun(ops: seq<Op>) {
    forall i :: 0 <= i < |ops| ==> CreatingOp(ops[i])
  }

  function SourceOf(op: Op): Source
    requires op.GemmOp? || op.L1L2Op?
  {
    if op.GemmOp? then FromGemm(op.q) else FromL1L2
  }

  lemma CreatingStepGrows(c: Context, op: Op)
    requires Invariant(c) && CreatingOp(op)
    ensures Invariant(Step(c, op)) && Grows(c, Step(c, op), SourceOf(op))
  {
    match op {
      case GemmOp(q, driver) => EnsureGemmKeeps(c, q, driver);
      case L1L2Op(kernel, dtype, reply) => EnsureL1L2Keeps(c, kernel, dtype, reply);
    }
  }

  // ---------------------------------------------------------------- nothing stored is lost

  /** The map of c' extends the map of c. */
  ghost predicate Extends(c: Context, c': Context) {
    forall k: nat :: k in Contents(c.table) ==> k in Contents(c'.table) && Contents(c'.table)[k] == Contents(c.table)[k]
  }

  lemma GrowthExtends(c: Context, c': Context, src: Source)
    requires Invariant(c) && Grows(c, c', src)
    ensures Extends(c, c')
  {
    if c'.table != c.table {
      var s: nat, e: Entry :| Stored(c.table, s, e) && Produces(src, e.key) && c'.table == c.table[s := e];
      FilledContents(c.table, s, e);
    }
  }

  lemma {:induction false} RunExtends(c: Context, ops: seq<Op>)
    requires Invariant(c) && CreatingRun(ops)
    ensures Invariant(Run(c, ops)) && Extends(c, Run(c, ops))
    ensures Run(c, ops).activeTier == c.activeTier
    decreases |ops|
  {
    if ops != [] {
      CreatingStepGrows(c, ops[0]);
      GrowthExtends(c, Step(c, ops[0]), SourceOf(ops[0]));
      RunExtends(Step(c, ops[0]), ops[1..]);
    }
  }

  /** An L1/L2 pipeline, once obtained, is answered from the table. */
  lemma L1L2Memoised(c: Context, kernel: nat, dtype: nat, reply: Reply, ops: seq<Op>, reply': Reply)
    requires Invariant(c) && kernel <= 10 && dtype <= 1 && CreatingRun(ops)
    requires EnsureL1L2(c, kernel, dtype, reply).1.Got?
    ensures var out := EnsureL1L2(c, kernel, dtype, reply);
            var later := Run(out.0, ops);
            EnsureL1L2(later, kernel, dtype, reply') == (later, out.1)
  {
    var key := L1L2Key(kernel, dtype);
    var out := EnsureL1L2(c, kernel, dtype, reply);
    EnsureL1L2Keeps(c, kernel, dtype, reply);
    RunExtends(out.0, ops);
    L1L2KeyValue(kernel, dtype);
    var later := Run(out.0, ops);
    TableNonNull(later.table);
    LookupRefinesMap(later.table, Home, key);
  }

  // ---------------------------------------------------------------- GEMM pipelines

  /** The two tables answer the request alike at every tier up to `top`. */
  ghost predicate SameTiers(t: Table, t': Table, q: Request, top: int) {
    forall v: nat :: v <= top ==>
      (CachedAt(t, q, v) <==> CachedAt(t', q, v)) &&
      (CachedAt(t, q, v) ==> Contents(t)[RequestKey(q, v)] == Contents(t')[RequestKey(q, v)])
  }

  lemma {:induction false} SameTiersSameAnswer(t: Table, t': Table, q: Request, top: int)
    requires TableOk(t) && TableOk(t') && PublicRequest(q) && top <= COOPMATRIX
    requires SameTiers(t, t', q, top)
    ensures CachedFrom(t, q, top) == CachedFrom(t', q, top)
    decreases top + 1
  {
    hide TableOk, RequestKey, GemmSlot, LookupHandle, CachedAt, PublicRequest, HasKey, Contents;
    if top >= 0 {
      TierAnswer(t, q, top);
      TierAnswer(t', q, top);
      SameTiersSameAnswer(t, t', q, top - 1);
    }
  }

  lemma TierAnswer(t: Table, q: Request, tier: nat)
    requires TableOk(t) && PublicRequest(q) && tier <= COOPMATRIX
    ensures var h := LookupHandle(t, GemmSlot(RequestKey(q, tier)), RequestKey(q, tier));
            && (if CachedAt(t, q, tier) then h > 0 && h == Contents(t)[RequestKey(q, tier)] else h == 0)
  {
    hide GemmSlot, RequestKey;
    TableNonNull(t);
    RequestFamily(q);
    TierLookup(t, q, tier);
  }

  /** Different public requests never share a key. */
  lemma RequestKeysDiffer(q: Request, q': Request, v: nat, v': nat)
    requires PublicRequest(q) && PublicRequest(q') && v <= COOPMATRIX && v' <= COOPMATRIX
    requires RequestKey(q, v) == RequestKey(q', v')
    ensures q == q' && v == v'
  {
    GemmKeyInjective(q.dtype, q.transA, q.transB, q.strided, v, q'.dtype, q'.transA, q'.transB, q'.strided, v');
  }

  /** A new key of another request or of the other family leaves this request's tiers alone. */
  lemma ForeignKey(c: Context, c': Context, q: Request, src: Source)
    requires Invariant(c) && PublicRequest(q) && Grows(c, c', src)
    requires src.FromGemm? ==> PublicRequest(src.q) && src.q != q
    ensures SameTiers(c.table, c'.table, q, COOPMATRIX)
  {
    hide GemmKey;
    if c'.table != c.table {
      var s: nat, e: Entry :| Stored(c.table, s, e) && Produces(src, e.key) && c'.table == c.table[s := e];
      FilledContents(c.table, s, e);
      RequestFamily(q);
      forall v: nat | v <= COOPMATRIX ensures RequestKey(q, v) != e.key {
        if RequestKey(q, v) == e.key && src.FromGemm? {
          var v': nat :| v' <= COOPMATRIX && e.key == RequestKey(src.q, v');
          RequestKeysDiffer(q, src.q, v, v');
        }
      }
      forall v: nat | v <= COOPMATRIX
        ensures CachedAt(c.table, q, v) <==> CachedAt(c'.table, q, v)
        ensures CachedAt(c.table, q, v) ==>
                  Contents(c.table)[RequestKey(q, v)] == Contents(c'.table)[RequestKey(q, v)]
      {
        SameKey(c.table, s, e, RequestKey(q, v));
      }
    }
  }

  lemma SameKey(t: Table, s: nat, e: Entry, key: nat)
    requires UniqueKeys(t) && Stored(t, s, e) && key != e.key
    ensures HasKey(t, key) <==> HasKey(t[s := e], key)
    ensures HasKey(t, key) ==> Contents(t)[key] == Contents(t[s := e])[key]
  {
    FilledContents(t, s, e);
    assert key in Contents(t) <==> HasKey(t, key);
    assert key in Contents(t[s := e]) <==> HasKey(t[s := e], key);
  }

  /** A request that is answered from the table keeps its answer whatever is created next. */
  lemma HitSurvivesStep(c: Context, q: Request, op: Op)
    requires Invariant(c) && PublicRequest(q) && CreatingOp(op)
    requires CachedFrom(c.table, q, c.activeTier) != 0
    ensures CachedFrom(Step(c, op).table, q, c.activeTier) == CachedFrom(c.table, q, c.activeTier)
  {
    if op.GemmOp? && op.q == q {
      // answered from the table, so the step changes nothing
    } else {
      CreatingStepGrows(c, op);
      ForeignKey(c, Step(c, op), q, SourceOf(op));
      SameTiersSameAnswer(c.table, Step(c, op).table, q, c.activeTier);
    }
  }

  lemma {:induction false} HitSurvivesRun(c: Context, q: Request, ops: seq<Op>)
    requires Invariant(c) && PublicRequest(q) && CreatingRun(ops)
    requires CachedFrom(c.table, q, c.activeTier) != 0
    ensures CachedFrom(Run(c, ops).table, q, c.activeTier) == CachedFrom(c.table, q, c.activeTier)
    decreases |ops|
  {
    if ops != [] {
      CreatingStepGrows(c, ops[0]);
      HitSurvivesStep(c, q, ops[0]);
      HitSurvivesRun(Step(c, ops[0]), q, ops[1..]);
    }
  }

  /** Success leaves the returned pipeline as the request's cached answer. */
  lemma SuccessIsCached(c: Context, q: Request, driver: Driver)
    requires Invariant(c) && PublicRequest(q) && EnsureGemm(c, q, driver).1.Got?
    ensures var r := EnsureGemm(c, q, driver);
            CachedFrom(r.0.table, q, c.activeTier) == r.1.handle && r.1.handle != 0
  {
    if CachedFrom(c.table, q, c.activeTier) == 0 {
      var r := EnsureGemm(c, q, driver);
      NothingCachedHere(c, q);
      CreateKeeps(c, q, driver, c.activeTier, FEATURE_NOT_PRESENT);
      var v: nat :| v <= c.activeTier && NowCached(c, r.0, q, v, r.1.handle);
      OnlyTierCached(c, r.0, q, v, r.1.handle);
    }
  }

  lemma OnlyTierCached(c: Context, c': Context, q: Request, v: nat, h: nat)
    requires Invariant(c) && Invariant(c') && PublicRequest(q) && v <= c.activeTier == c'.activeTier
    requires forall u: nat :: u <= c.activeTier ==> !CachedAt(c.table, q, u)
    requires NowCached(c, c', q, v, h)
    ensures CachedFrom(c'.table, q, c.activeTier) == h && h != 0
  {
    TableNonNull(c'.table);
    RequestFamily(q);
    forall u: nat | u <= c.activeTier ensures CachedAt(c'.table, q, u) <==> u == v {
      assert RequestKey(q, u) in Contents(c'.table) <==> CachedAt(c'.table, q, u);
      assert RequestKey(q, u) in Contents(c.table) <==> CachedAt(c.table, q, u);
      if u != v && RequestKey(q, u) == RequestKey(q, v) {
        RequestKeysDiffer(q, q, u, v);
      }
    }
    HighestCachedTierWins(c'.table, q, c.activeTier, v);
  }

  /** Once obtained, a pipeline is returned again by every later request until a flush or re-detection,
      whatever the driver would say, and the request leaves the context unchanged. */
  lemma GemmMemoised(c: Context, q: Request, driver: Driver, ops: seq<Op>, driver': Driver)
    requires Invariant(c) && PublicRequest(q) && CreatingRun(ops)
    requires EnsureGemm(c, q, driver).1.Got?
    ensures var out := EnsureGemm(c, q, driver);
            var later := Run(out.0, ops);
            EnsureGemm(later, q, driver') == (later, out.1)
  {
    var out := EnsureGemm(c, q, driver);
    EnsureGemmKeeps(c, q, driver);
    SuccessIsCached(c, q, driver);
    HitSurvivesRun(out.0, q, ops);
    RunExtends(out.0, ops);
  }
}
