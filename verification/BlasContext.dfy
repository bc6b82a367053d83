/**
 The context object whose methods probe and update the pipeline array in place. Every method
 is tied to the corresponding function on values in PipelineFallback.
 */
module BlasContext {
  import opened PipelineTable
  import opened PipelineKeys
  import opened PipelineFallback
  import opened Wrappers
  import Q = QgemmDispatch

  const SUCCESS: int := 0

  class VkBLASContext {
    var pipelines: array<Entry>
    var pipelineCount: nat
    var activeTier: nat
    var useCoopmat: bool
    ghost var trace: seq<Event>

    ghost predicate Valid()
      reads this
    {
      pipelines.Length == CAPACITY && activeTier <= COOPMATRIX
    }

    /** The context as a value. */
    ghost function Abs(): Context
      requires Valid()
      reads this, pipelines
    {
      Context(pipelines[..], pipelineCount, activeTier, useCoopmat, trace)
    }

    constructor (caps: Option<Capabilities>, optIn: bool)
      ensures Valid() && fresh(pipelines)
      ensures Abs() == NewContext(caps, optIn)
      ensures if caps.Some?
              then TierAllowed(caps.value, optIn, activeTier) &&
                   forall t: nat :: TierAllowed(caps.value, optIn, t) ==> t <= activeTier
              else activeTier == 0
    {
      pipelines := new Entry[CAPACITY](_ => Entry(0, 0, GemmLayout, 0, 0, 0, 0, 0, false));
      pipelineCount, activeTier, useCoopmat := 0, BASELINE, false;
      trace := [];
      new;
      if caps.Some? {
        useCoopmat := optIn && caps.value.coopMatrix;
        activeTier := DetectedTier(caps.value, optIn);
      }
      assert pipelines[..] == seq(CAPACITY, _ => Entry(0, 0, GemmLayout, 0, 0, 0, 0, 0, false));
    }

    /** Re-detection: `failure` is what the query answers when it fails. */
    method InitCapabilities(caps: Option<Capabilities>, failure: int, optIn: bool) returns (status: int)
      requires Valid()
      modifies this`activeTier, this`useCoopmat
      ensures Valid() && Abs() == Redetect(old(Abs()), caps, optIn)
      ensures status == if caps.Some? then 0 else failure
      ensures caps.None? ==> activeTier == old(activeTier) && useCoopmat == old(useCoopmat)
      ensures caps.Some? ==> TierAllowed(caps.value, optIn, activeTier) &&
                             forall t: nat :: TierAllowed(caps.value, optIn, t) ==> t <= activeTier
    {
      status := if caps.Some? then SUCCESS else failure;
      if caps.Some? {
        DetectedTierIsHighest(caps.value, optIn);
        useCoopmat := optIn && caps.value.coopMatrix;
        if useCoopmat && caps.value.subgroup {
          activeTier := COOPMATRIX;
        } else if caps.value.subgroup {
          activeTier := SUBGROUP;
        } else {
          activeTier := BASELINE;
        }
      }
    }

    /** One probe sequence; 0 when a hole or the end is reached first. */
    method ProbeFor(key: nat, slot: nat) returns (pipeline: nat)
      requires Valid()
      ensures pipeline == LookupHandle(pipelines[..], slot, key)
    {
      for i := 0 to CAPACITY
        invariant FindIndex(pipelines[..], slot, key, 0) == FindIndex(pipelines[..], slot, key, i)
      {
        var idx := (slot + i) % CAPACITY;
        if !pipelines[idx].valid {
          break;
        }
        if pipelines[idx].key == key {
          return pipelines[idx].pipeline;
        }
      }
      return 0;
    }

    method GetCachedPipeline(q: Request) returns (pipeline: nat)
      requires Valid()
      ensures pipeline == CachedFrom(pipelines[..], q, activeTier)
    {
      var t: int := activeTier;
      while t >= BASELINE
        invariant -1 <= t <= activeTier
        invariant CachedFrom(pipelines[..], q, activeTier) == CachedFrom(pipelines[..], q, t)
      {
        var key := GemmKey(q.dtype, q.transA, q.transB, q.strided, t);
        var p := ProbeFor(key, GemmSlot(key));
        if p != 0 {
          return p;
        }
        t := t - 1;
      }
      return 0;
    }

    /** The insertion loop shared by both families: first hole from the home slot, or nothing. */
    method StoreEntry(slot: nat, e: Entry)
      requires Valid()
      modifies pipelines, this`pipelineCount
      ensures Valid() && Abs() == Store(old(Abs()), slot, e)
    {
      ghost var before := pipelines[..];
      for i := 0 to CAPACITY
        invariant pipelines[..] == before && pipelineCount == old(pipelineCount)
        invariant HoleIndex(before, slot, 0) == HoleIndex(before, slot, i)
      {
        var idx := (slot + i) % CAPACITY;
        if !pipelines[idx].valid {
          pipelines[idx] := e;
          pipelineCount := pipelineCount + 1;
          assert pipelines[..] == before[Slot(slot, i) := e];
          return;
        }
      }
    }

    method EnsurePipeline(q: Request, driver: Driver) returns (status: int, pipeline: nat)
      requires Valid()
      modifies pipelines, this`pipelineCount, this`trace
      ensures Valid()
      ensures var r := EnsureGemm(old(Abs()), q, driver);
              && Abs() == r.0
              && (r.1.Got? ==> status == 0 && pipeline == r.1.handle)
              && (r.1.Failed? ==> status == r.1.error)
    {
      pipeline := GetCachedPipeline(q);
      if pipeline != 0 {
        return SUCCESS, pipeline;
      }
      var lastResult := FEATURE_NOT_PRESENT;
      var t: int := activeTier;
      while t >= BASELINE
        invariant -1 <= t <= activeTier
        invariant CreateFrom(old(Abs()), q, driver, activeTier, FEATURE_NOT_PRESENT) ==
                  CreateFrom(Abs(), q, driver, t, lastResult)
      {
        if HasGemmBlob(useCoopmat, q.dtype, t) {
          var reply := driver(t);
          trace := trace + AttemptEvents(reply);
          match reply {
            case ModuleRefused(e) => lastResult := e;
            case PipelineRefused(e) => lastResult := e;
            case Created(h) =>
              var key := GemmKey(q.dtype, q.transA, q.transB, q.strided, t);
              StoreEntry(GemmSlot(key), GemmEntry(q, t, h));
              return SUCCESS, h;
          }
        }
        t := t - 1;
      }
      return lastResult, 0;
    }

    method EnsureL1L2Pipeline(kernel: nat, dtype: nat, reply: Reply) returns (status: int, pipeline: nat)
      requires Valid()
      modifies pipelines, this`pipelineCount, this`trace
      ensures Valid()
      ensures var r := EnsureL1L2(old(Abs()), kernel, dtype, reply);
              && Abs() == r.0
              && (r.1.Got? ==> status == 0 && pipeline == r.1.handle)
              && (r.1.Failed? ==> status == r.1.error)
    {
      var key := L1L2Key(kernel, dtype);
      pipeline := ProbeFor(key, L1L2Slot(key));
      if pipeline != 0 {
        return SUCCESS, pipeline;
      }
      if !HasL1L2Blob(kernel, dtype) {
        return FEATURE_NOT_PRESENT, 0;
      }
      trace := trace + AttemptEvents(reply);
      match reply {
        case ModuleRefused(e) => return e, 0;
        case PipelineRefused(e) => return e, 0;
        case Created(h) =>
          StoreEntry(L1L2Slot(key), L1L2Entry(kernel, dtype, activeTier, h));
          return SUCCESS, h;
      }
    }

    /** Destroys every live pipeline and clears its valid flag, slot by slot. */
    method FlushPipelines()
      requires Valid()
      modifies pipelines, this`pipelineCount, this`trace
      ensures Valid() && Abs() == Flush(old(Abs()))
    {
      ghost var before, traceBefore := pipelines[..], trace;
      for i := 0 to CAPACITY
        invariant trace == traceBefore + Destructions(before, i)
        invariant forall p: nat :: p < CAPACITY ==>
                    pipelines[p] == if p < i then before[p].(valid := false) else before[p]
      {
        if pipelines[i].valid {
          trace := trace + [PipelineDestroyed(pipelines[i].pipeline)];
          pipelines[i] := pipelines[i].(valid := false);
        }
      }
      pipelineCount := 0;
      assert pipelines[..] == Cleared(before);
    }

    /** The same sweep when the context is destroyed; the entries stay as they are. */
    method Destroy()
      requires Valid()
      modifies this`trace
      ensures trace == old(trace) + Destructions(pipelines[..], CAPACITY)
    {
      ghost var traceBefore := trace;
      for i := 0 to CAPACITY
        invariant trace == traceBefore + Destructions(pipelines[..], i)
      {
        if pipelines[i].valid {
          trace := trace + [PipelineDestroyed(pipelines[i].pipeline)];
        }
      }
    }

    /** The tier the qgemm grid is sized for: first entry of the kernel, else the blob walk. */
    method QgemmResolvedTier(kernel: nat) returns (tier: nat)
      requires Valid()
      ensures tier == Q.ResolvedTier(Abs(), kernel)
    {
      for i := 0 to CAPACITY
        invariant Q.ScanFrom(pipelines[..], kernel, 0) == Q.ScanFrom(pipelines[..], kernel, i)
      {
        var e := pipelines[i];
        if e.valid && e.dataType == kernel && e.transA == 0 && e.transB == 0 && e.strided == 0 {
          return e.tier;
        }
      }
      var t: int := activeTier;
      while t >= BASELINE
        invariant -1 <= t <= activeTier
        invariant Q.BlobWalk(useCoopmat, kernel, activeTier) == Q.BlobWalk(useCoopmat, kernel, t)
      {
        if HasGemmBlob(useCoopmat, kernel, t) {
          return t;
        }
        t := t - 1;
      }
      return BASELINE;
    }
  }

  // ---------------------------------------------------------------- creation that may fail

  /** What a context owns besides its pipelines, in the order of creation. */
  datatype Resource = PipelineCache | DescriptorPool | SetLayout | PipelineLayout | ConvPipelineLayout

  const RESOURCES: seq<Resource> := [PipelineCache, DescriptorPool, SetLayout, PipelineLayout, ConvPipelineLayout]

  const OUT_OF_HOST_MEMORY: int := -1

  /** How many resources are created before the first one that is refused. */
  function Accepted(answer: Resource -> int, k: nat): (n: nat)
    requires k <= |RESOURCES|
    ensures k <= n <= |RESOURCES|
    decreases |RESOURCES| - k
  {
    if k == |RESOURCES| || answer(RESOURCES[k]) != SUCCESS then k else Accepted(answer, k + 1)
  }

  /** Either a fresh context, empty at the detected tier, or no context, the first refusal, and everything that had
      been created destroyed again. */
  method CreateContext(hostMemory: bool, answer: Resource -> int, caps: Option<Capabilities>, optIn: bool)
    returns (ctx: VkBLASContext?, status: int, created: seq<Resource>, destroyed: seq<Resource>)
    ensures !hostMemory ==> status == -1 && created == []
    ensures hostMemory ==>
              && created == RESOURCES[..Accepted(answer, 0)]
              && created <= [PipelineCache, DescriptorPool, SetLayout, PipelineLayout, ConvPipelineLayout]
              && status == if |created| == 5 then 0 else answer(RESOURCES[|created|])
    ensures if status == SUCCESS
            then ctx != null && fresh(ctx) && ctx.Valid() && ctx.Abs() == NewContext(caps, optIn) && destroyed == []
            else ctx == null && destroyed == created
  {
    ctx, created, destroyed := null, [], [];
    if !hostMemory {
      return null, OUT_OF_HOST_MEMORY, [], [];
    }
    label fail: {
      status := answer(PipelineCache);
      if status != SUCCESS {
        break fail;
      }
      created := created + [PipelineCache];
      status := answer(DescriptorPool);
      if status != SUCCESS {
        break fail;
      }
      created := created + [DescriptorPool];
      status := answer(SetLayout);
      if status != SUCCESS {
        break fail;
      }
      created := created + [SetLayout];
      status := answer(PipelineLayout);
      if status != SUCCESS {
        break fail;
      }
      created := created + [PipelineLayout];
      status := answer(ConvPipelineLayout);
      if status != SUCCESS {
        break fail;
      }
      created := created + [ConvPipelineLayout];
      ctx := new VkBLASContext(caps, optIn);
      return;
    }
    if PipelineCache in created {
      destroyed := destroyed + [PipelineCache];
    }
    if DescriptorPool in created {
      destroyed := destroyed + [DescriptorPool];
    }
    if SetLayout in created {
      destroyed := destroyed + [SetLayout];
    }
    if PipelineLayout in created {
      destroyed := destroyed + [PipelineLayout];
    }
  }
}
