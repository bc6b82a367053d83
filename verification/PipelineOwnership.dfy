/**
 Handles in use: what a caller was given is alive, and stays alive until the next flush.
 */
module PipelineOwnership {
  import opened PipelineTable
  import opened PipelineKeys
  import opened PipelineFallback
  import opened PipelineRuns
  import opened PipelineMemo
  import opened Wrappers

  /** Created more often than destroyed. */
  ghost predicate IsAlive(c: Context, h: nat) {
    Tally(c.trace, Creations(h)) > Tally(c.trace, Destructing(h))
  }

  // ---------------------------------------------------------------- shader modules

  /** Every pipeline was created while exactly one shader module was open. */
  ghost predicate CreatedFromModules(trace: seq<Event>) {
    forall i: nat :: i < |trace| && trace[i].PipelineCreated? ==> Tally(trace[..i], OpenModules()) == 1
  }

  lemma AppendEvent(trace: seq<Event>, e: Event)
    requires CreatedFromModules(trace) && (e.PipelineCreated? ==> Tally(trace, OpenModules()) == 1)
    ensures CreatedFromModules(trace + [e])
    ensures Tally(trace + [e], OpenModules()) == Tally(trace, OpenModules()) + OpenModules()(e)
  {
    var longer := trace + [e];
    forall i: nat | i < |longer| && longer[i].PipelineCreated? ensures Tally(longer[..i], OpenModules()) == 1 {
      assert longer[..i] == trace[..i];
      assert i == |trace| ==> trace[..i] == trace;
    }
    assert longer[..|trace|] == trace;
  }

  /** One attempt: nothing if the module is refused; else the module is opened, used, and closed again. */
  lemma AttemptUsesModule(trace: seq<Event>, r: Reply)
    requires CreatedFromModules(trace) && Tally(trace, OpenModules()) == 0
    ensures CreatedFromModules(trace + AttemptEvents(r)) && Tally(trace + AttemptEvents(r), OpenModules()) == 0
    ensures AttemptEvents(r) == [] <==> r.ModuleRefused?
  {
    hide CreatedFromModules, Tally;
    var entered := trace + [ModuleCreated];
    match r {
      case ModuleRefused(_) =>
        assert trace + AttemptEvents(r) == trace;
      case PipelineRefused(_) =>
        AppendEvent(trace, ModuleCreated);
        AppendEvent(entered, ModuleDestroyed);
        assert trace + AttemptEvents(r) == entered + [ModuleDestroyed];
      case Created(h) =>
        AppendEvent(trace, ModuleCreated);
        AppendEvent(entered, PipelineCreated(h));
        AppendEvent(entered + [PipelineCreated(h)], ModuleDestroyed);
        assert trace + AttemptEvents(r) == entered + [PipelineCreated(h)] + [ModuleDestroyed];
    }
  }

  lemma {:induction false} CreateUsesModules(c: Context, q: Request, driver: Driver, tier: int, last: int)
    requires CreatedFromModules(c.trace) && Tally(c.trace, OpenModules()) == 0
    ensures CreatedFromModules(CreateFrom(c, q, driver, tier, last).0.trace)
    decreases tier + 1
  {
    hide CreatedFromModules, Tally, HasGemmBlob, GemmEntry, RequestKey, GemmSlot;
    if tier >= 0 {
      if !HasGemmBlob(c.useCoopmat, q.dtype, tier) {
        CreateUsesModules(c, q, driver, tier - 1, last);
      } else {
        AttemptUsesModule(c.trace, driver(tier));
        if !driver(tier).Created? {
          CreateUsesModules(c.(trace := c.trace + AttemptEvents(driver(tier))), q, driver, tier - 1,
                            ErrorOf(driver(tier)));
        }
      }
    }
  }

  lemma {:induction false} SweepUsesNone(trace: seq<Event>, t: Table, n: nat)
    requires n <= CAPACITY && CreatedFromModules(trace)
    ensures CreatedFromModules(trace + Destructions(t, n))
  {
    hide CreatedFromModules, Tally;
    if n == 0 {
      assert trace + Destructions(t, n) == trace;
    } else {
      SweepUsesNone(trace, t, n - 1);
      var swept := trace + Destructions(t, n - 1);
      if t[n - 1].valid {
        AppendEvent(swept, PipelineDestroyed(t[n - 1].pipeline));
        assert trace + Destructions(t, n) == swept + [PipelineDestroyed(t[n - 1].pipeline)];
      } else {
        assert trace + Destructions(t, n) == swept;
      }
    }
  }

  lemma StepUsesModules(c: Context, op: Op)
    requires Invariant(c) && PublicOp(op) && CreatedFromModules(c.trace)
    ensures CreatedFromModules(Step(c, op).trace)
  {
    hide CreatedFromModules, Tally, CreateFrom, TableOk, CachedFrom, LookupHandle, AttemptEvents;
    match op {
      case GemmOp(q, driver) => CreateUsesModules(c, q, driver, c.activeTier, FEATURE_NOT_PRESENT);
      case L1L2Op(kernel, dtype, reply) => AttemptUsesModule(c.trace, reply);
      case FlushOp => SweepUsesNone(c.trace, c.table, CAPACITY);
      case RedetectOp(_, _) =>
    }
  }

  /** In every public run each pipeline is created while exactly one shader module is open. */
  lemma {:induction false} RunUsesModules(c: Context, ops: seq<Op>)
    requires Invariant(c) && PublicRun(ops) && CreatedFromModules(c.trace)
    ensures CreatedFromModules(Run(c, ops).trace)
    decreases |ops|
  {
    hide CreatedFromModules, Invariant, PublicOp;
    if ops != [] {
      StepKeeps(c, ops[0]);
      StepUsesModules(c, ops[0]);
      RunUsesModules(Step(c, ops[0]), ops[1..]);
    }
  }

  // ---------------------------------------------------------------- live handles

  /** Some key's entry holds h. */
  ghost predicate Holds(c: Context, h: nat) {
    exists k: nat :: k in Contents(c.table) && Contents(c.table)[k] == h
  }

  lemma {:induction false} LiveSlot(t: Table, h: nat, n: nat, p: nat)
    requires p < n <= CAPACITY && t[p].valid && t[p].pipeline == h
    ensures LiveBelow(t, h, n) > 0
  {
    if p < n - 1 {
      LiveSlot(t, h, n - 1, p);
    }
  }

  /** What the table holds is alive. */
  lemma HeldIsAlive(c: Context, h: nat)
    requires Invariant(c) && Holds(c, h)
    ensures h > 0 && IsAlive(c, h)
  {
    hide WellFormed, EntryOk;
    TableNonNull(c.table);
    var k: nat :| k in Contents(c.table) && Contents(c.table)[k] == h;
    LiveSlot(c.table, h, CAPACITY, SlotOf(c.table, k));
  }

  /** A non-null answer is held. */
  lemma {:induction false} AnswerIsHeld(c: Context, q: Request, top: int)
    requires TableOk(c.table) && PublicRequest(q) && top <= COOPMATRIX && CachedFrom(c.table, q, top) != 0
    ensures Holds(c, CachedFrom(c.table, q, top))
    decreases top + 1
  {
    hide TableOk, PublicRequest, RequestKey, GemmSlot, LookupHandle, Contents;
    TierAnswer(c.table, q, top);
    if LookupHandle(c.table, GemmSlot(RequestKey(q, top)), RequestKey(q, top)) == 0 {
      AnswerIsHeld(c, q, top - 1);
    } else {
      assert RequestKey(q, top) in Contents(c.table) by {
        CachedKey(c.table, q, top);
      }
    }
  }

  lemma CachedKey(t: Table, q: Request, tier: nat)
    requires CachedAt(t, q, tier)
    ensures RequestKey(q, tier) in Contents(t)
  {
  }

  /** Every step but a flush keeps what is held. */
  lemma StepHolds(c: Context, op: Op, h: nat)
    requires Invariant(c) && PublicOp(op) && !op.FlushOp? && Holds(c, h)
    ensures Holds(Step(c, op), h)
  {
    hide Invariant, PublicOp, Grows, Contents;
    if CreatingOp(op) {
      CreatingStepGrows(c, op);
      GrowthExtends(c, Step(c, op), SourceOf(op));
      var k: nat :| k in Contents(c.table) && Contents(c.table)[k] == h;
      assert k in Contents(Step(c, op).table);
    } else {
      RedetectKeepsTable(c, op);
    }
  }

  lemma RedetectKeepsTable(c: Context, op: Op)
    requires PublicOp(op) && !op.FlushOp? && !CreatingOp(op)
    ensures Step(c, op).table == c.table
  {
  }

  ghost predicate NoFlush(ops: seq<Op>) {
    forall i :: 0 <= i < |ops| ==> !ops[i].FlushOp?
  }

  lemma {:induction false} RunHolds(c: Context, ops: seq<Op>, h: nat)
    requires Invariant(c) && PublicRun(ops) && NoFlush(ops) && Holds(c, h)
    ensures Holds(Run(c, ops), h) && Invariant(Run(c, ops))
    decreases |ops|
  {
    hide Invariant, PublicOp, Holds;
    if ops != [] {
      StepKeeps(c, ops[0]);
      StepHolds(c, ops[0], h);
      RunHolds(Step(c, ops[0]), ops[1..], h);
    }
  }

  /** After any public run, a GEMM handle a caller obtains is alive, and stays alive through every further run without a
      flush: re-detections, other requests and a driver that refuses everything included. */
  lemma GemmHandleAlive(caps: Option<Capabilities>, optIn: bool, ops: seq<Op>, q: Request, driver: Driver,
                        later: seq<Op>)
    requires PublicRun(ops) && PublicRun(later) && NoFlush(later) && PublicRequest(q)
    requires EnsureGemm(Run(NewContext(caps, optIn), ops), q, driver).1.Got?
    ensures var out := EnsureGemm(Run(NewContext(caps, optIn), ops), q, driver);
            IsAlive(Run(out.0, later), out.1.handle)
  {
    hide Invariant, CachedFrom, Holds, IsAlive, EnsureGemm, PublicOp;
    var c0 := NewContext(caps, optIn);
    NewContextInvariant(caps, optIn);
    RunKeepsInvariant(c0, ops);
    var c := Run(c0, ops);
    var out := EnsureGemm(c, q, driver);
    EnsureGemmKeeps(c, q, driver);
    SuccessIsCached(c, q, driver);
    InvariantParts(c);
    InvariantParts(out.0);
    AnswerIsHeld(out.0, q, c.activeTier);
    RunHolds(out.0, later, out.1.handle);
    HeldIsAlive(Run(out.0, later), out.1.handle);
  }

  lemma InvariantParts(c: Context)
    requires Invariant(c)
    ensures TableOk(c.table) && c.activeTier <= COOPMATRIX
  {
  }

  /** The same for an L1/L2 handle. */
  lemma L1L2HandleAlive(caps: Option<Capabilities>, optIn: bool, ops: seq<Op>, kernel: nat, dtype: nat, reply: Reply,
                        later: seq<Op>)
    requires PublicRun(ops) && PublicRun(later) && NoFlush(later) && kernel <= 10 && dtype <= 1
    requires EnsureL1L2(Run(NewContext(caps, optIn), ops), kernel, dtype, reply).1.Got?
    ensures var out := EnsureL1L2(Run(NewContext(caps, optIn), ops), kernel, dtype, reply);
            IsAlive(Run(out.0, later), out.1.handle)
  {
    hide Invariant, Contents, IsAlive, EnsureL1L2, PublicOp;
    var c0 := NewContext(caps, optIn);
    NewContextInvariant(caps, optIn);
    RunKeepsInvariant(c0, ops);
    var c := Run(c0, ops);
    var out := EnsureL1L2(c, kernel, dtype, reply);
    EnsureL1L2Keeps(c, kernel, dtype, reply);
    RunHolds(out.0, later, out.1.handle);
    HeldIsAlive(Run(out.0, later), out.1.handle);
  }
}
