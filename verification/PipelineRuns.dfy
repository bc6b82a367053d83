/**
 Whole runs of a context through its public entry points: the table stays a finite map of
 both key families, never fills, keeps what it stored, and no pipeline is lost or destroyed twice.
 */
module PipelineRuns {
  import opened PipelineTable
  import opened PipelineKeys
  import opened PipelineFallback
  import opened Wrappers

  // ---------------------------------------------------------------- runs

  datatype Op =
    | GemmOp(q: Request, driver: Driver)
    | L1L2Op(kernel: nat, l1l2Type: nat, reply: Reply)
    | FlushOp
    | RedetectOp(caps: Option<Capabilities>, optIn: bool)

  function Step(c: Context, op: Op): Context {
    match op
    case GemmOp(q, driver) => EnsureGemm(c, q, driver).0
    case L1L2Op(kernel, dtype, reply) => EnsureL1L2(c, kernel, dtype, reply).0
    case FlushOp => Flush(c)
    case RedetectOp(caps, optIn) => Redetect(c, caps, optIn)
  }

  function Run(c: Context, ops: seq<Op>): Context
    decreases |ops|
  {
    if ops == [] then c else Run(Step(c, ops[0]), ops[1..])
  }

  /** What the public GEMM, qgemm, extended and convolution entry points pass down. */
  predicate PublicRequest(q: Request) {
    q.dtype < 64 && PublicFlags(q.dtype, q.transA, q.transB, q.strided)
  }

  predicate PublicOp(op: Op) {
    match op
    case GemmOp(q, _) => PublicRequest(q)
    case L1L2Op(kernel, dtype, _) => kernel <= 10 && dtype <= 1
    case FlushOp => true
    case RedetectOp(_, _) => true
  }

  ghost predicate PublicRun(ops: seq<Op>) {
    forall i :: 0 <= i < |ops| ==> PublicOp(ops[i])
  }

  // ---------------------------------------------------------------- ownership of handles

  /** The total weight of the events of a trace. */
  ghost function Tally(trace: seq<Event>, weight: Event -> int): int {
    if trace == [] then 0
    else Tally(trace[..|trace| - 1], weight) + weight(trace[|trace| - 1])
  }

  /** Counts how often the driver handed out handle h. */
  function Creations(h: nat): Event -> int {
    e => if e == PipelineCreated(h) then 1 else 0
  }

  /** Counts how often handle h was destroyed. */
  function Destructing(h: nat): Event -> int {
    e => if e == PipelineDestroyed(h) then 1 else 0
  }

  /** Shader modules created and not yet destroyed. */
  function OpenModules(): Event -> int {
    e => if e == ModuleCreated then 1 else if e == ModuleDestroyed then -1 else 0
  }

  lemma {:induction false} TallyAppend(a: seq<Event>, b: seq<Event>, weight: Event -> int)
    ensures Tally(a + b, weight) == Tally(a, weight) + Tally(b, weight)
    decreases |b|
  {
    var ab := a + b;
    if b == [] {
      assert ab == a;
    } else {
      TallyAppend(a, b[..|b| - 1], weight);
      assert ab[..|ab| - 1] == a + b[..|b| - 1];
    }
  }

  lemma TallyOne(e: Event, weight: Event -> int)
    ensures Tally([e], weight) == weight(e)
  {
    assert [e][..0] == [];
  }

  lemma TallyThree(a: Event, b: Event, c: Event, weight: Event -> int)
    ensures Tally([a, b, c], weight) == weight(a) + weight(b) + weight(c)
  {
    assert [a, b, c] == [a] + ([b] + [c]);
    TallyAppend([a], [b] + [c], weight);
    TallyAppend([b], [c], weight);
    TallyOne(a, weight);
    TallyOne(b, weight);
    TallyOne(c, weight);
  }

  /** An attempt leaves no module open and creates exactly the pipeline it reports. */
  lemma AttemptBalance(r: Reply, h: nat)
    ensures Tally(AttemptEvents(r), Creations(h)) == if r.Created? && r.handle == h then 1 else 0
    ensures Tally(AttemptEvents(r), Destructing(h)) == 0
    ensures Tally(AttemptEvents(r), OpenModules()) == 0
  {
    match r {
      case ModuleRefused(_) =>
      case PipelineRefused(_) =>
        var two := [ModuleCreated] + [ModuleDestroyed];
        assert AttemptEvents(r) == two;
        forall weight: Event -> int ensures Tally(two, weight) == weight(ModuleCreated) + weight(ModuleDestroyed) {
          TallyAppend([ModuleCreated], [ModuleDestroyed], weight);
          TallyOne(ModuleCreated, weight);
          TallyOne(ModuleDestroyed, weight);
        }
      case Created(g) =>
        TallyThree(ModuleCreated, PipelineCreated(g), ModuleDestroyed, Creations(h));
        TallyThree(ModuleCreated, PipelineCreated(g), ModuleDestroyed, Destructing(h));
        TallyThree(ModuleCreated, PipelineCreated(g), ModuleDestroyed, OpenModules());
    }
  }

  lemma SweepStep(t: Table, n: nat, weight: Event -> int)
    requires 0 < n <= CAPACITY
    ensures Tally(Destructions(t, n), weight) == Tally(Destructions(t, n - 1), weight) +
              if t[n - 1].valid then weight(PipelineDestroyed(t[n - 1].pipeline)) else 0
  {
    var e := PipelineDestroyed(t[n - 1].pipeline);
    if t[n - 1].valid {
      TallyAppend(Destructions(t, n - 1), [e], weight);
      TallyOne(e, weight);
    } else {
      assert Destructions(t, n) == Destructions(t, n - 1);
    }
  }

  /** A sweep destroys what the swept slots hold, once per slot. */
  lemma {:induction false} SweepBalance(t: Table, h: nat, n: nat)
    requires n <= CAPACITY
    ensures Tally(Destructions(t, n), Creations(h)) == 0
    ensures Tally(Destructions(t, n), Destructing(h)) == LiveBelow(t, h, n)
    ensures Tally(Destructions(t, n), OpenModules()) == 0
  {
    if n > 0 {
      SweepBalance(t, h, n - 1);
      SweepStep(t, n, Creations(h));
      SweepStep(t, n, Destructing(h));
      SweepStep(t, n, OpenModules());
    }
  }

  // ---------------------------------------------------------------- the invariant

  ghost predicate GemmShaped(e: Entry) {
    && PublicConfig(GemmConfig(e.dataType, e.transA, e.transB, e.strided, e.tier))
    && e.key == GemmKey(e.dataType, e.transA, e.transB, e.strided, e.tier)
    && e.layout == LayoutOf(e.dataType)
  }

  ghost predicate L1L2Shaped(e: Entry) {
    && e.layout == GemmLayout && e.transA == 0 && e.transB == 0 && e.strided == 0
    && exists k: nat :: PublicConfig(L1L2Config(k, e.dataType)) && e.key == L1L2Key(k, e.dataType)
  }

  ghost predicate EntryOk(e: Entry) {
    e.pipeline > 0 && (GemmShaped(e) || L1L2Shaped(e))
  }

  ghost predicate TableOk(t: Table) {
    WellFormed(t, Home) && forall p: nat :: p < CAPACITY && t[p].valid ==> EntryOk(t[p])
  }

  /** Every handle was created as often as it is held (`held` stands for one more, or none
      when it is 0), stored in the table or destroyed; no shader module is open. */
  ghost predicate Accounted(c: Context, held: nat) {
    && (forall h: nat :: h > 0 ==>
          Tally(c.trace, Creations(h)) ==
          Tally(c.trace, Destructing(h)) + Live(c.table, h) + if h == held then 1 else 0)
    && Tally(c.trace, OpenModules()) == 0
  }

  ghost predicate Invariant(c: Context) {
    && TableOk(c.table)
    && c.count == |ValidSlots(c.table)|
    && c.activeTier <= COOPMATRIX
    && Accounted(c, 0)
  }

  /** At most 165 of the 256 slots are ever in use. */
  lemma TableNeverFills(t: Table)
    requires TableOk(t)
    ensures |ValidSlots(t)| <= PUBLIC_KEYS && HasHole(t)
  {
    forall p: nat | p < CAPACITY && t[p].valid ensures PublicKey(t[p].key) {
      var e := t[p];
      assert EntryOk(e);
      if GemmShaped(e) {
        assert KeyOf(GemmConfig(e.dataType, e.transA, e.transB, e.strided, e.tier)) == e.key;
      } else {
        var k: nat :| PublicConfig(L1L2Config(k, e.dataType)) && e.key == L1L2Key(k, e.dataType);
        assert KeyOf(L1L2Config(k, e.dataType)) == e.key;
      }
    }
    forall p, q | p in ValidSlots(t) && q in ValidSlots(t) && Rank(t[p].key) == Rank(t[q].key)
      ensures t[p].key == t[q].key
    {
      RankInjective(t[p].key, t[q].key);
    }
    RankedTable(t, Rank, PUBLIC_KEYS);
  }

  lemma TableNonNull(t: Table)
    requires TableOk(t)
    ensures NonNull(t)
  {
    forall p: nat | p < CAPACITY && t[p].valid ensures t[p].pipeline > 0 {
      assert EntryOk(t[p]);
    }
  }

  /** The keys of a public request lie in the GEMM family at every tier. */
  lemma RequestFamily(q: Request)
    requires PublicRequest(q)
    ensures forall v: nat :: v <= 2 ==> RequestKey(q, v) < MARKER
  {
    forall v: nat | v <= 2 ensures RequestKey(q, v) < MARKER {
      GemmKeyIsNumeral(q.dtype, q.transA, q.transB, q.strided, v);
    }
  }

  /** Storing a pipeline under a key that is not cached. */
  lemma StoreKeeps(c: Context, e: Entry)
    requires TableOk(c.table) && c.count == |ValidSlots(c.table)| && c.activeTier <= COOPMATRIX
    requires Accounted(c, e.pipeline)
    requires e.valid && EntryOk(e) && !HasKey(c.table, e.key)
    ensures Invariant(Store(c, Home(e.key), e))
    ensures Contents(Store(c, Home(e.key), e).table) == Contents(c.table)[e.key := e.pipeline]
    ensures Store(c, Home(e.key), e).activeTier == c.activeTier
    ensures exists s: nat :: s < CAPACITY && !c.table[s].valid && Store(c, Home(e.key), e).table == c.table[s := e]
  {
    var t, h := c.table, Home(e.key);
    TableNeverFills(t);
    var s := InsertWhere(t, h, e);
    var p: nat :| p < CAPACITY && !t[p].valid;
    HoleComplete(t, h, p, 0);
    InsertRefinesMap(t, Home, e);
    StoredEntry(c, s, e);
  }

  lemma StoredEntry(c: Context, s: nat, e: Entry)
    requires TableOk(c.table) && Accounted(c, e.pipeline) && s < CAPACITY && !c.table[s].valid
    requires e.valid && EntryOk(e) && WellFormed(c.table[s := e], Home)
    ensures TableOk(c.table[s := e])
    ensures |ValidSlots(c.table[s := e])| == |ValidSlots(c.table)| + 1
    ensures Accounted(c.(table := c.table[s := e]), 0)
  {
    hide WellFormed, EntryOk, Home;
    var t := c.table;
    assert ValidSlots(t[s := e]) == ValidSlots(t) + {s};
    forall h: nat ensures Live(t[s := e], h) == Live(t, h) + if e.pipeline == h then 1 else 0 {
      LiveUpdate(t, s, e, h, CAPACITY);
    }
  }

  // ---------------------------------------------------------------- every step keeps the invariant

  /** A public request's entry at a tier with a blob is well described and lives in the GEMM family. */
  lemma RequestEntry(q: Request, tier: nat, useCoopmat: bool, handle: Handle)
    requires PublicRequest(q) && HasGemmBlob(useCoopmat, q.dtype, tier)
    ensures var e := GemmEntry(q, tier, handle);
            && EntryOk(e) && GemmShaped(e) && e.valid && e.key == RequestKey(q, tier) && e.tier == tier
            && Home(e.key) == GemmSlot(e.key) && e.key < MARKER
  {
    hide GemmKey, GemmSlot, Home, HasGemmBlob, IsPlainGemm, L1L2Shaped, LayoutOf;
    BlobTier(useCoopmat, q.dtype, tier);
    RequestKeyHome(q, tier);
  }

  lemma BlobTier(useCoopmat: bool, dtype: nat, tier: nat)
    requires HasGemmBlob(useCoopmat, dtype, tier)
    ensures tier <= COOPMATRIX && HasGemmBlob(true, dtype, tier)
  {
  }

  lemma RequestKeyHome(q: Request, tier: nat)
    requires PublicRequest(q) && tier <= COOPMATRIX
    ensures RequestKey(q, tier) < MARKER && Home(RequestKey(q, tier)) == GemmSlot(RequestKey(q, tier))
  {
    GemmKeyIsNumeral(q.dtype, q.transA, q.transB, q.strided, tier);
  }

  lemma L1L2EntryShape(kernel: nat, dtype: nat, activeTier: nat, handle: Handle)
    requires HasL1L2Blob(kernel, dtype)
    ensures var e := L1L2Entry(kernel, dtype, activeTier, handle);
            && EntryOk(e) && L1L2Shaped(e) && e.valid
            && Home(e.key) == L1L2Slot(e.key) && e.key >= MARKER
  {
    L1L2KeyValue(kernel, dtype);
    assert PublicConfig(L1L2Config(kernel, dtype));
  }

  /** The driver calls of one attempt, before its pipeline is stored. */
  lemma AttemptAccounted(c: Context, r: Reply)
    requires Accounted(c, 0)
    ensures Accounted(c.(trace := c.trace + AttemptEvents(r)), if r.Created? then r.handle else 0)
  {
    var c' := c.(trace := c.trace + AttemptEvents(r));
    forall h: nat | h > 0
      ensures Tally(c'.trace, Creations(h)) ==
              Tally(c'.trace, Destructing(h)) + Live(c.table, h) + if r.Created? && h == r.handle then 1 else 0
    {
      AttemptBalance(r, h);
      TallyAppend(c.trace, AttemptEvents(r), Creations(h));
      TallyAppend(c.trace, AttemptEvents(r), Destructing(h));
    }
    AttemptBalance(r, 0);
    TallyAppend(c.trace, AttemptEvents(r), OpenModules());
  }

  /** Which call a new key comes from. */
  datatype Source = FromGemm(q: Request) | FromL1L2

  ghost predicate Produces(src: Source, key: nat) {
    match src
    case FromGemm(q) => exists v: nat :: v <= COOPMATRIX && key == RequestKey(q, v)
    case FromL1L2 => key >= MARKER
  }

  ghost predicate Stored(t: Table, s: nat, e: Entry) {
    s < CAPACITY && !t[s].valid && e.valid && EntryOk(e) && !HasKey(t, e.key)
  }

  /** What a call that may create does: nothing to the table, or one new key of its own. */
  ghost predicate Grows(c: Context, c': Context, src: Source) {
    && c'.activeTier == c.activeTier && c'.useCoopmat == c.useCoopmat
    && (c'.table == c.table ||
        exists s: nat, e: Entry :: Stored(c.table, s, e) && Produces(src, e.key) && c'.table == c.table[s := e])
  }

  /** Storing the pipeline one attempt created. */
  lemma CreatedKeeps(c: Context, e: Entry, reply: Reply, src: Source)
    requires Invariant(c) && reply.Created? && e.pipeline == reply.handle
    requires e.valid && EntryOk(e) && !HasKey(c.table, e.key) && Produces(src, e.key)
    ensures var c' := Store(c.(trace := c.trace + AttemptEvents(reply)), Home(e.key), e);
            && Invariant(c') && Grows(c, c', src)
            && Contents(c'.table) == Contents(c.table)[e.key := e.pipeline]
  {
    hide TableOk, EntryOk, Home, AttemptEvents, Accounted, HasKey, Produces;
    AttemptAccounted(c, reply);
    var c1 := c.(trace := c.trace + AttemptEvents(reply));
    StoreKeeps(c1, e);
    var s: nat :| s < CAPACITY && !c.table[s].valid && Store(c1, Home(e.key), e).table == c.table[s := e];
    assert Stored(c.table, s, e);
  }

  /** Handle h now sits in the table under the request's key at tier v. */
  ghost predicate NowCached(c: Context, c': Context, q: Request, v: nat, h: nat) {
    Contents(c'.table) == Contents(c.table)[RequestKey(q, v) := h]
  }

  lemma {:induction false} CreateKeeps(c: Context, q: Request, driver: Driver, tier: int, last: int)
    requires Invariant(c) && PublicRequest(q) && tier <= COOPMATRIX
    requires forall v: nat :: v <= tier ==> !CachedAt(c.table, q, v)
    ensures var r := CreateFrom(c, q, driver, tier, last);
            && Invariant(r.0) && Grows(c, r.0, FromGemm(q))
            && (r.1.Failed? ==> r.0.table == c.table)
            && (r.1.Got? ==> exists v: nat :: v <= tier && NowCached(c, r.0, q, v, r.1.handle))
    decreases tier + 1
  {
    hide TableOk, Accounted, HasGemmBlob, GemmEntry, RequestKey, Home, GemmSlot, PublicRequest;
    hide AttemptEvents, Store, HasKey, EntryOk;
    if tier >= 0 {
      if !HasGemmBlob(c.useCoopmat, q.dtype, tier) {
        CreateKeeps(c, q, driver, tier - 1, last);
      } else {
        var reply := driver(tier);
        if reply.Created? {
          var e := GemmEntry(q, tier, reply.handle);
          RequestEntry(q, tier, c.useCoopmat, reply.handle);
          assert CachedAt(c.table, q, tier) == HasKey(c.table, e.key);
          EntryHandle(q, tier, reply.handle);
          CreatedKeeps(c, e, reply, FromGemm(q));
          assert NowCached(c, CreateFrom(c, q, driver, tier, last).0, q, tier, reply.handle);
        } else {
          AttemptAccounted(c, reply);
          CreateKeeps(c.(trace := c.trace + AttemptEvents(reply)), q, driver, tier - 1, ErrorOf(reply));
          KeepWitness(c, q, driver, tier, last);
        }
      }
    }
  }

  /** A refused attempt changes the trace only, so what the lower tiers cached is what the call cached. */
  lemma KeepWitness(c: Context, q: Request, driver: Driver, tier: nat, last: int)
    requires HasGemmBlob(c.useCoopmat, q.dtype, tier) && !driver(tier).Created?
    ensures var c' := c.(trace := c.trace + AttemptEvents(driver(tier)));
            forall r: Context, v: nat, h: nat :: NowCached(c', r, q, v, h) ==> NowCached(c, r, q, v, h)
  {
  }

  lemma EntryHandle(q: Request, tier: nat, handle: nat)
    ensures GemmEntry(q, tier, handle).pipeline == handle
  {
  }

  lemma EnsureGemmKeeps(c: Context, q: Request, driver: Driver)
    requires Invariant(c) && PublicRequest(q)
    ensures Invariant(EnsureGemm(c, q, driver).0) && Grows(c, EnsureGemm(c, q, driver).0, FromGemm(q))
  {
    hide RequestKey, HasKey, Accounted, TableOk;
    NothingCachedHere(c, q);
    if CachedFrom(c.table, q, c.activeTier) == 0 {
      CreateKeeps(c, q, driver, c.activeTier, FEATURE_NOT_PRESENT);
    }
  }

  /** A miss means no tier up to the active one is cached. */
  lemma NothingCachedHere(c: Context, q: Request)
    requires Invariant(c) && PublicRequest(q)
    ensures CachedFrom(c.table, q, c.activeTier) == 0 <==>
            forall v: nat :: v <= c.activeTier ==> !CachedAt(c.table, q, v)
  {
    TableNonNull(c.table);
    RequestFamily(q);
    NothingCached(c.table, q, c.activeTier);
  }

  lemma EnsureL1L2Keeps(c: Context, kernel: nat, dtype: nat, reply: Reply)
    requires Invariant(c) && kernel <= 10 && dtype <= 1
    ensures Invariant(EnsureL1L2(c, kernel, dtype, reply).0)
    ensures Grows(c, EnsureL1L2(c, kernel, dtype, reply).0, FromL1L2)
    ensures var r := EnsureL1L2(c, kernel, dtype, reply);
            r.1.Got? ==> var key := L1L2Key(kernel, dtype);
                         key in Contents(r.0.table) && Contents(r.0.table)[key] == r.1.handle
  {
    var key := L1L2Key(kernel, dtype);
    L1L2KeyValue(kernel, dtype);
    TableNonNull(c.table);
    LookupRefinesMap(c.table, Home, key);
    hide L1L2Key, Accounted, WellFormed, EntryOk;
    if LookupHandle(c.table, L1L2Slot(key), key) == 0 && HasL1L2Blob(kernel, dtype) {
      if reply.Created? {
        var e := L1L2Entry(kernel, dtype, c.activeTier, reply.handle);
        L1L2EntryShape(kernel, dtype, c.activeTier, reply.handle);
        CreatedKeeps(c, e, reply, FromL1L2);
      } else {
        AttemptAccounted(c, reply);
      }
    }
  }

  lemma FlushKeeps(c: Context)
    requires Invariant(c)
    ensures Invariant(Flush(c)) && Contents(Flush(c).table) == map[]
    ensures forall h: nat :: h > 0 ==> Tally(Flush(c).trace, Creations(h)) == Tally(Flush(c).trace, Destructing(h))
  {
    var c', d := Flush(c), Destructions(c.table, CAPACITY);
    assert ValidSlots(c'.table) == {};
    forall h: nat
      ensures Live(c'.table, h) == 0
      ensures Tally(c'.trace, Creations(h)) == Tally(c.trace, Creations(h))
      ensures Tally(c'.trace, Destructing(h)) == Tally(c.trace, Destructing(h)) + Live(c.table, h)
      ensures Tally(c'.trace, OpenModules()) == Tally(c.trace, OpenModules())
    {
      NothingLive(c'.table, h, CAPACITY);
      SweepBalance(c.table, h, CAPACITY);
      TallyAppend(c.trace, d, Creations(h));
      TallyAppend(c.trace, d, Destructing(h));
      TallyAppend(c.trace, d, OpenModules());
    }
    assert Tally(c'.trace, OpenModules()) == Tally(c.trace, OpenModules()) by {
      SweepBalance(c.table, 0, CAPACITY);
      TallyAppend(c.trace, d, OpenModules());
    }
  }

  lemma StepKeeps(c: Context, op: Op)
    requires Invariant(c) && PublicOp(op)
    ensures Invariant(Step(c, op))
  {
    match op {
      case GemmOp(q, driver) => EnsureGemmKeeps(c, q, driver);
      case L1L2Op(kernel, dtype, reply) => EnsureL1L2Keeps(c, kernel, dtype, reply);
      case FlushOp => FlushKeeps(c);
      case RedetectOp(_, _) =>
    }
  }

  lemma NewContextInvariant(caps: Option<Capabilities>, optIn: bool)
    ensures Invariant(NewContext(caps, optIn))
  {
    var c := NewContext(caps, optIn);
    assert ValidSlots(c.table) == {};
    forall h: nat ensures Live(c.table, h) == 0 {
      NothingLive(c.table, h, CAPACITY);
    }
  }

  /** Every run through the public entry points keeps the invariant. */
  lemma {:induction false} RunKeepsInvariant(c: Context, ops: seq<Op>)
    requires Invariant(c) && PublicRun(ops)
    ensures Invariant(Run(c, ops))
    decreases |ops|
  {
    if ops != [] {
      StepKeeps(c, ops[0]);
      RunKeepsInvariant(Step(c, ops[0]), ops[1..]);
    }
  }

  /** Over a whole run closed by a flush, every pipeline created is destroyed exactly as often. */
  lemma NothingLeaks(caps: Option<Capabilities>, optIn: bool, ops: seq<Op>, h: nat)
    requires PublicRun(ops) && h > 0
    ensures var c := Flush(Run(NewContext(caps, optIn), ops));
            Tally(c.trace, Creations(h)) == Tally(c.trace, Destructing(h)) && Tally(c.trace, OpenModules()) == 0
  {
    NewContextInvariant(caps, optIn);
    RunKeepsInvariant(NewContext(caps, optIn), ops);
    FlushKeeps(Run(NewContext(caps, optIn), ops));
  }
}
