/**
 What one call does to a context's pipeline table, as functions on values: tiered lookup,
 creation with fallback over a driver that may refuse, flush and re-detection.
 */
module PipelineFallback {
  import opened PipelineTable
  import opened PipelineKeys
  import opened Wrappers

  /** A pipeline handle the driver returned; 0 is the null handle. */
  type Handle = h: nat | h > 0 witness 1

  /** What the driver answers when one pipeline is attempted. */
  datatype Reply = ModuleRefused(error: int) | PipelineRefused(error: int) | Created(handle: Handle)

  /** The driver during one call: an arbitrary answer at every tier, different for every call. */
  type Driver = nat -> Reply

  /** Driver calls that matter for ownership, in the order they are made. */
  datatype Event =
    | ModuleCreated
    | ModuleDestroyed
    | PipelineCreated(handle: nat)
    | PipelineDestroyed(handle: nat)

  datatype Context = Context(table: Table, count: nat, activeTier: nat, useCoopmat: bool, trace: seq<Event>)

  datatype Outcome = Got(handle: nat) | Failed(error: int)

  const FEATURE_NOT_PRESENT: int := -8

  datatype Request = Request(dtype: nat, transA: nat, transB: nat, strided: nat)

  function RequestKey(q: Request, tier: nat): nat {
    GemmKey(q.dtype, q.transA, q.transB, q.strided, tier)
  }

  // ---------------------------------------------------------------- lookup

  function LookupHandle(t: Table, h: nat, key: nat): nat {
    match Lookup(t, h, key)
    case None => 0
    case Some(p) => p
  }

  /** Search from `tier` down to the baseline; 0 when nothing is cached. */
  function CachedFrom(t: Table, q: Request, tier: int): nat
    decreases tier + 1
  {
    if tier < 0 then 0
    else
      var p := LookupHandle(t, GemmSlot(RequestKey(q, tier)), RequestKey(q, tier));
      if p != 0 then p else CachedFrom(t, q, tier - 1)
  }

  // ---------------------------------------------------------------- creation

  /** The driver calls one attempt makes; a created shader module is always destroyed again. */
  function AttemptEvents(r: Reply): seq<Event> {
    match r
    case ModuleRefused(_) => []
    case PipelineRefused(_) => [ModuleCreated, ModuleDestroyed]
    case Created(h) => [ModuleCreated, PipelineCreated(h), ModuleDestroyed]
  }

  function LayoutOf(dtype: nat): Layout {
    if 60 <= dtype <= 63 then ConvLayout else GemmLayout
  }

  /** The stored fields; the flags are one-bit and the tier a four-bit field. */
  function GemmEntry(q: Request, tier: nat, handle: nat): Entry {
    Entry(RequestKey(q, tier), handle, LayoutOf(q.dtype), q.dtype,
          q.transA % 2, q.transB % 2, q.strided % 2, tier % 16, true)
  }

  function L1L2Entry(kernel: nat, dtype: nat, activeTier: nat, handle: nat): Entry {
    Entry(L1L2Key(kernel, dtype), handle, GemmLayout, dtype, 0, 0, 0, activeTier % 16, true)
  }

  /** Store into the first hole from home slot h; a full table stores nothing. */
  function Store(c: Context, h: nat, e: Entry): Context {
    if HoleIndex(c.table, h, 0).Some? then
      c.(table := Insert(c.table, h, e), count := c.count + 1)
    else c
  }

  /** Try the tiers from `tier` down; `last` is the error reported if none succeeds. */
  function CreateFrom(c: Context, q: Request, driver: Driver, tier: int, last: int): (Context, Outcome)
    decreases tier + 1
  {
    if tier < 0 then (c, Failed(last))
    else if !HasGemmBlob(c.useCoopmat, q.dtype, tier) then CreateFrom(c, q, driver, tier - 1, last)
    else
      var reply := driver(tier);
      var c' := c.(trace := c.trace + AttemptEvents(reply));
      match reply
      case ModuleRefused(e) => CreateFrom(c', q, driver, tier - 1, e)
      case PipelineRefused(e) => CreateFrom(c', q, driver, tier - 1, e)
      case Created(h) => (Store(c', GemmSlot(RequestKey(q, tier)), GemmEntry(q, tier, h)), Got(h))
  }

  function EnsureGemm(c: Context, q: Request, driver: Driver): (Context, Outcome) {
    var p := CachedFrom(c.table, q, c.activeTier);
    if p != 0 then (c, Got(p)) else CreateFrom(c, q, driver, c.activeTier, FEATURE_NOT_PRESENT)
  }

  function EnsureL1L2(c: Context, kernel: nat, dtype: nat, reply: Reply): (Context, Outcome) {
    var key := L1L2Key(kernel, dtype);
    var p := LookupHandle(c.table, L1L2Slot(key), key);
    if p != 0 then (c, Got(p))
    else if !HasL1L2Blob(kernel, dtype) then (c, Failed(FEATURE_NOT_PRESENT))
    else
      var c' := c.(trace := c.trace + AttemptEvents(reply));
      match reply
      case ModuleRefused(e) => (c', Failed(e))
      case PipelineRefused(e) => (c', Failed(e))
      case Created(h) => (Store(c', L1L2Slot(key), L1L2Entry(kernel, dtype, c.activeTier, h)), Got(h))
  }

  // ---------------------------------------------------------------- flush and detection

  /** The destructions a sweep over the first n slots makes. */
  function Destructions(t: Table, n: nat): seq<Event>
    requires n <= CAPACITY
  {
    if n == 0 then []
    else Destructions(t, n - 1) + if t[n - 1].valid then [PipelineDestroyed(t[n - 1].pipeline)] else []
  }

  /** Only the valid flags are cleared; the rest of an entry stays behind. */
  function Cleared(t: Table): (t': Table) {
    seq(CAPACITY, p requires 0 <= p < CAPACITY => t[p].(valid := false))
  }

  function Flush(c: Context): Context {
    c.(table := Cleared(c.table), count := 0, trace := c.trace + Destructions(c.table, CAPACITY))
  }

  datatype Capabilities = Capabilities(subgroup: bool, coopMatrix: bool)

  function DetectedTier(caps: Capabilities, optIn: bool): nat {
    if optIn && caps.coopMatrix && caps.subgroup then COOPMATRIX
    else if caps.subgroup then SUBGROUP
    else BASELINE
  }

  /** Re-detection replaces the tier; a failed query leaves the context alone. */
  function Redetect(c: Context, caps: Option<Capabilities>, optIn: bool): Context {
    match caps
    case None => c
    case Some(k) => c.(activeTier := DetectedTier(k, optIn), useCoopmat := optIn && k.coopMatrix)
  }

  /** A new context: no entries, and the baseline tier when detection fails. */
  function NewContext(caps: Option<Capabilities>, optIn: bool): Context {
    var empty := Entry(0, 0, GemmLayout, 0, 0, 0, 0, 0, false);
    Redetect(Context(seq(CAPACITY, _ => empty), 0, BASELINE, false, []), caps, optIn)
  }

  /** What each tier needs of the device and of the operator. */
  predicate TierAllowed(caps: Capabilities, optIn: bool, tier: nat) {
    match tier
    case 0 => true
    case 1 => caps.subgroup
    case 2 => caps.subgroup && caps.coopMatrix && optIn
    case _ => false
  }

  /** Detection picks the largest tier whose needs are met, and nothing but those needs matters. */
  lemma DetectedTierIsHighest(caps: Capabilities, optIn: bool)
    ensures TierAllowed(caps, optIn, DetectedTier(caps, optIn))
    ensures forall t: nat :: TierAllowed(caps, optIn, t) ==> t <= DetectedTier(caps, optIn)
    ensures DetectedTier(caps, optIn) == 2 <==> optIn && caps.coopMatrix && caps.subgroup
    ensures DetectedTier(caps, optIn) >= 1 <==> caps.subgroup
    ensures !optIn ==> DetectedTier(caps, optIn) == DetectedTier(caps.(coopMatrix := !caps.coopMatrix), optIn)
  {
  }

  /** Re-detection: a failed query changes nothing; a successful one sets the tier and the flag, and leaves the table,
      the counter and the driver calls alone. A new context has no entry, and the baseline tier if the query failed. */
  lemma RedetectMeans(c: Context, caps: Option<Capabilities>, optIn: bool)
    ensures caps.None? ==> Redetect(c, caps, optIn) == c
    ensures caps.Some? ==>
              var c' := Redetect(c, caps, optIn);
              && TierAllowed(caps.value, optIn, c'.activeTier)
              && (forall t: nat :: TierAllowed(caps.value, optIn, t) ==> t <= c'.activeTier)
              && (c'.useCoopmat <==> optIn && caps.value.coopMatrix)
              && c'.table == c.table && c'.count == c.count && c'.trace == c.trace
    ensures var start := NewContext(caps, optIn);
            && (forall p: nat :: p < CAPACITY ==> !start.table[p].valid) && start.count == 0 && start.trace == []
            && (caps.None? ==> start.activeTier == 0 && !start.useCoopmat)
            && (caps.Some? ==> start.activeTier == DetectedTier(caps.value, optIn) &&
                               (start.useCoopmat <==> optIn && caps.value.coopMatrix))
  {
    if caps.Some? {
      DetectedTierIsHighest(caps.value, optIn);
    }
  }

  // ---------------------------------------------------------------- the fallback rule

  /** Tier t is tried when a search starts at `top`. */
  predicate Tried(useCoopmat: bool, dtype: nat, top: int, t: nat) {
    t <= top && HasGemmBlob(useCoopmat, dtype, t)
  }

  function ErrorOf(r: Reply): int
    requires !r.Created?
  {
    match r
    case ModuleRefused(e) => e
    case PipelineRefused(e) => e
  }

  /** The highest tried tier whose creation succeeds is the one returned. */
  lemma {:induction false} HighestCreatedTierWins(c: Context, q: Request, driver: Driver, top: int, last: int, t: nat)
    requires Tried(c.useCoopmat, q.dtype, top, t) && driver(t).Created?
    requires forall u: nat :: t < u && Tried(c.useCoopmat, q.dtype, top, u) ==> !driver(u).Created?
    ensures CreateFrom(c, q, driver, top, last).1 == Got(driver(t).handle)
    ensures CreateFrom(c, q, driver, top, last).0.table ==
            Store(c, GemmSlot(RequestKey(q, t)), GemmEntry(q, t, driver(t).handle)).table
    decreases top
  {
    if t < top {
      if HasGemmBlob(c.useCoopmat, q.dtype, top) {
        assert Tried(c.useCoopmat, q.dtype, top, top);
        assert !driver(top).Created?;
      }
      var tried := HasGemmBlob(c.useCoopmat, q.dtype, top);
      var c' := if tried then c.(trace := c.trace + AttemptEvents(driver(top))) else c;
      var last' := if tried then ErrorOf(driver(top)) else last;
      forall u: nat | t < u && Tried(c.useCoopmat, q.dtype, top - 1, u) ensures !driver(u).Created? {
        assert Tried(c.useCoopmat, q.dtype, top, u);
      }
      HighestCreatedTierWins(c', q, driver, top - 1, last', t);
    }
  }

  ghost predicate LowestTried(useCoopmat: bool, dtype: nat, top: int, t: nat) {
    Tried(useCoopmat, dtype, top, t) && forall u: nat :: Tried(useCoopmat, dtype, top, u) ==> t <= u
  }

  /** If every tried tier is refused, the error is that of the lowest tried tier, or `last` if none was tried. */
  lemma {:induction false} LastRefusalIsReported(c: Context, q: Request, driver: Driver, top: int, last: int)
    requires forall u: nat :: Tried(c.useCoopmat, q.dtype, top, u) ==> !driver(u).Created?
    ensures CreateFrom(c, q, driver, top, last).1.Failed?
    ensures (forall u: nat :: !Tried(c.useCoopmat, q.dtype, top, u)) ==>
              CreateFrom(c, q, driver, top, last).1 == Failed(last)
    ensures forall t: nat :: LowestTried(c.useCoopmat, q.dtype, top, t) ==>
              CreateFrom(c, q, driver, top, last).1 == Failed(ErrorOf(driver(t)))
    decreases top + 1
  {
    if top >= 0 {
      var below := top - 1;
      var tried := HasGemmBlob(c.useCoopmat, q.dtype, top);
      assert tried ==> Tried(c.useCoopmat, q.dtype, top, top);
      var c' := if tried then c.(trace := c.trace + AttemptEvents(driver(top))) else c;
      var last' := if tried then ErrorOf(driver(top)) else last;
      assert CreateFrom(c, q, driver, top, last) == CreateFrom(c', q, driver, below, last');
      forall u: nat | Tried(c.useCoopmat, q.dtype, below, u) ensures Tried(c.useCoopmat, q.dtype, top, u) {
      }
      LastRefusalIsReported(c', q, driver, below, last');
      forall t: nat | LowestTried(c.useCoopmat, q.dtype, top, t)
        ensures CreateFrom(c, q, driver, top, last).1 == Failed(ErrorOf(driver(t)))
      {
        if t < top {
          assert LowestTried(c.useCoopmat, q.dtype, below, t);
        } else {
          assert forall u: nat :: !Tried(c.useCoopmat, q.dtype, below, u);
        }
      }
    }
  }

  // ---------------------------------------------------------------- the tiered cache lookup

  /** Entries never hold the null handle. */
  ghost predicate NonNull(t: Table) {
    forall p: nat :: p < CAPACITY && t[p].valid ==> t[p].pipeline > 0
  }

  ghost predicate CachedAt(t: Table, q: Request, tier: nat) {
    HasKey(t, RequestKey(q, tier))
  }

  /** One tier's lookup, in terms of the finite map. */
  lemma TierLookup(t: Table, q: Request, tier: nat)
    requires WellFormed(t, Home) && NonNull(t) && RequestKey(q, tier) < MARKER
    ensures var h := LookupHandle(t, GemmSlot(RequestKey(q, tier)), RequestKey(q, tier));
            if CachedAt(t, q, tier) then h > 0 && h == Contents(t)[RequestKey(q, tier)] else h == 0
  {
    LookupRefinesMap(t, Home, RequestKey(q, tier));
  }

  /** The pipeline of the highest cached tier is found without touching the driver. */
  lemma {:induction false} HighestCachedTierWins(t: Table, q: Request, top: int, u: nat)
    requires WellFormed(t, Home) && NonNull(t)
    requires forall v: nat :: v <= top ==> RequestKey(q, v) < MARKER
    requires u <= top && CachedAt(t, q, u) && forall v: nat :: u < v <= top ==> !CachedAt(t, q, v)
    ensures CachedFrom(t, q, top) > 0 && CachedFrom(t, q, top) == Contents(t)[RequestKey(q, u)]
    decreases top
  {
    hide WellFormed, NonNull, RequestKey, GemmSlot, LookupHandle, CachedAt, Contents;
    TierLookup(t, q, top);
    if u < top {
      HighestCachedTierWins(t, q, top - 1, u);
    }
  }

  /** The search from `top` finds nothing exactly when `top` is not cached and neither is any tier below. */
  lemma NothingFromTop(t: Table, q: Request, top: nat)
    requires WellFormed(t, Home) && NonNull(t) && RequestKey(q, top) < MARKER
    ensures CachedFrom(t, q, top) == 0 <==> !CachedAt(t, q, top) && CachedFrom(t, q, top - 1) == 0
  {
    hide WellFormed, NonNull, RequestKey, GemmSlot, GemmKey, Home, LookupHandle, CachedAt, Contents;
    TierLookup(t, q, top);
  }

  lemma NothingBelow(t: Table, q: Request, top: int)
    requires top < 0
    ensures CachedFrom(t, q, top) == 0
  {
  }

  lemma {:induction false} NothingCached(t: Table, q: Request, top: int)
    requires WellFormed(t, Home) && NonNull(t)
    requires forall v: nat :: v <= top ==> RequestKey(q, v) < MARKER
    ensures CachedFrom(t, q, top) == 0 <==> forall v: nat :: v <= top ==> !CachedAt(t, q, v)
    decreases top + 1
  {
    hide WellFormed, NonNull, RequestKey, CachedAt, CachedFrom;
    if top < 0 {
      NothingBelow(t, q, top);
    } else {
      NothingFromTop(t, q, top);
      NothingCached(t, q, top - 1);
    }
  }
}
