# Dafny model of the VAIST Vulkan compute libraries

This project models the parts of the repository whose behaviour is decided by code that can be read,
and proves properties of them for all inputs, all runs and all driver answers:

- the pipeline table that the GEMM and the L1/L2 code share, with tier fallback over a driver that may
  refuse anything, memoisation, ownership of handles, and the quantized-GEMM grid
  (`PipelineTable`, `PipelineKeys`, `PipelineFallback`, `PipelineRuns`, `PipelineMemo`,
  `PipelineAnswers`, `PipelineOwnership`, `QgemmDispatch`, and the mutable context in `BlasContext`);
- the radix-2 FFT kernel and the two-pass 2D transform over any commutative ring
  (`FourierTransform`, `FftKernel`, `ComplexNumbers`);
- tiles, shuffles and the binary partition of a coalesced group (`CoalescedGroup`) and the lock-free
  addition to a pair of halves under every interleaving (`HalfAtomics`);
- the ridge fit by Gauss-Jordan elimination, and its application on the device
  (`GaussJordan`, `Ridge`, `RidgeFit`, `KvApply`);
- the two-stage reductions (`Reductions`, `Amax`), the packed quantization layouts
  (`QuantLayouts`, `QuantBits`), the convolution kernel with its 1D and 2D entry points
  (`Convolution`, `ConvolutionMeaning`, `ConvKernel`), the half to
  single conversion (`HalfWiden`) and the SPIR-V-to-C printer (`SpirvPrinter`).

`Algebra`, `Reals` and `Bits` hold the shared mathematics: sums over commutative monoids and rings,
real sums, and bit operations on naturals. `Wrappers` holds the option type.

Code that changes arrays or fields in the repository is imperative here as well: methods over arrays
and a class, each tied to a specification function or a pointwise statement of the new contents. The
driver is an arbitrary function from tiers to answers, fresh for every call. Workgroups of an FFT pass
and of the reductions run in any order; the butterflies of an FFT stage too.

`dafny verify dfyconfig.toml` checks the whole project. No code of the repository was executed.

## Where the code and its own comments differ

The model follows the code.

- `src/vkblas_l1l2/vkblas_l1l2.c:57-58` says GEMM keys stay below 2^32; they do for data type 0 only
  (`PipelineKeys.GemmKeyWidth`). They stay below 2^63, which is what the marker bit needs.
- `src/vkblas/vkblas.c:1476-1482` says there is one entry per quantized kernel. After a re-detection
  that lowers the tier there can be two, and the grid is then sized for the wrong one
  (`QgemmDispatch.LoweredTierMismatch`). `QgemmDispatch.DispatchCoversWhen` says for every context and
  every output size when such a grid still covers the output; in the run of
  `QgemmDispatch.MismatchLeavesHole` it does up to 16 rows.
- `shfl_down` and `shfl_up` document a source rank modulo the group size; the code keeps the caller's
  own lane instead (`CoalescedGroup.ShuffleDownDocumented`, `CoalescedGroup.ShuffleUpDocumented`).
- `shfl` takes a signed rank but its remainder truncates: for a negative rank that is no multiple of the
  size, the lane passed on is not that of the rank modulo the size (`CoalescedGroup.ShuffleReadsRank`).
- Tiling a group that is marked as a tile divides the number of lanes without rounding up, and aligns to
  lane numbers, not to ranks (`CoalescedGroup.TiledAgainIsTile`).
- `src/vkkv/vkkv.c:89` says -1 means a singular system; a pivot below 1e-300 is enough
  (`GaussJordan.NonsingularRefused`, `GaussJordan.RefusalMeans`).
- `include/vkblas_l1l2/vkblas_l1l2.h:142` promises the index of the maximum; it is stored as a float
  and is exact for vectors of up to 2^24 + 1 entries (`Amax.IndexExactUpTo`).
- The last line of the scale formula in the header comment of `qgemm_q3k.comp` reads `s[is]`; the code
  reads `s[is-4]`, which is the one that lies inside the twelve bytes (`QuantLayouts.Scales3RoundTrip`).
- `include/vkblas/vkblas.h:1207` writes `+ beta * y`; `beta` is not used, as the parameter's own
  description says (`ConvKernel.Dispatch`).

## Model

| member | source | states |
|---|---|---|
| `PipelineTable.LookupRefinesMap` | src/vkblas/vkblas.c:424-443 | in a well-formed table a probe from a key's own home slot, for any home function, answers exactly as the finite map the table stands for |
| `PipelineTable.InsertRefinesMap` | src/vkblas/vkblas.c:542-565 | inserting an absent key into a table with a hole keeps every entry reachable from its own home, keeps keys unique, and updates the map at that key only |
| `PipelineTable.InsertWhere` | src/vkblas/vkblas.c:547-565 | the insertion loop fills exactly one slot, a hole, and changes no other slot |
| `PipelineTable.ProbeOrder` | src/vkblas/vkblas.c:435-441 | probing goes one slot on at a time and wraps after the last of 256 |
| `PipelineTable.RankedTable` | src/vkblas/vkblas.c:547-565 | a table whose keys can be numbered below n holds at most n entries |
| `PipelineKeys.GemmKeyIsNumeral` | src/vkblas/vkblas.c:106-118 | for the data types in use a GEMM key is the base-31 numeral of its five fields and tile constants, nothing wraps in 64 bits, and bit 63 stays clear |
| `PipelineKeys.HashKey` | src/vkblas/vkblas.c:106-118 | the eight multiply-and-add statements in 64-bit arithmetic leave the numeral of the fields modulo 2^64 |
| `PipelineKeys.GemmKeyInjective` | src/vkblas/vkblas.c:106-118 | two GEMM keys agree only when data type, both transposes, stride flag and tier agree |
| `PipelineKeys.GemmKeyWidth` | src/vkblas_l1l2/vkblas_l1l2.c:55-60 | a GEMM key is below 2^32 exactly for data type 0, so the comment that all of them are is not what the code does |
| `PipelineKeys.L1L2KeyValue` | src/vkblas_l1l2/vkblas_l1l2.c:55-60 | an L1/L2 key is 2^63 plus data type times 2^32 plus kernel |
| `PipelineKeys.L1L2KeyInjective` | src/vkblas_l1l2/vkblas_l1l2.c:55-60 | two L1/L2 keys agree only when kernel and data type agree |
| `PipelineKeys.Index` | src/vkblas/vkblas.c:125-356 | every public configuration has a number below 165: 150 GEMM configurations and 15 L1/L2 ones |
| `PipelineKeys.IndexInjective` | src/vkblas/vkblas.c:125-356 | no two public configurations (shader blobs with their transposed and strided variants, and L1/L2 blobs) have the same number |
| `PipelineKeys.KeyInjective` | src/vkblas_l1l2/vkblas_l1l2.c:55-60 | over both families, two public configurations never share a key |
| `PipelineKeys.KeyFamily` | src/vkblas_l1l2/vkblas_l1l2.c:72-91 | a public key has bit 63 set exactly when it is an L1/L2 key, so each key is probed from its own family's home slot |
| `PipelineKeys.IndexOnto` | src/vkblas/vkblas.c:125-356 | every number below 165 is a public configuration, so there are exactly 165 |
| `PipelineKeys.BlobsByTier` | src/vkblas/vkblas.c:125-356 | with the opt-in the cooperative-matrix tier has exactly the kernels of the subgroup tier; which kernels only the baseline has, and which it lacks, by their codes |
| `PipelineKeys.GemmSlotBytes` | src/vkblas/vkblas.c:416-422 | the multiplicative hash keeps low bits, so the home slot of a GEMM key depends on two bytes of it: 21 times their exclusive or |
| `PipelineKeys.L1L2SlotIsKernel` | src/vkblas_l1l2/vkblas_l1l2.c:72-75 | an L1/L2 key is at home in the slot of its kernel code, whatever the data type |
| `PipelineFallback.HighestCreatedTierWins` | src/vkblas/vkblas.c:464-572 | on a miss the pipeline returned is that of the highest tried tier the driver accepts |
| `PipelineFallback.LastRefusalIsReported` | src/vkblas/vkblas.c:480-572 | when every tried tier is refused the error is that of the lowest tried one, and feature-not-present when none has a blob |
| `PipelineFallback.HighestCachedTierWins` | src/vkblas/vkblas.c:445-462 | a cached request is answered with the pipeline of its highest cached tier |
| `PipelineFallback.NothingCached` | src/vkblas/vkblas.c:445-462 | the lookup answers null exactly when no tier up to the searched one is cached |
| `PipelineFallback.TierLookup` | src/vkblas/vkblas.c:424-443 | the lookup of one tier is a lookup of that tier's key in the finite map |
| `PipelineFallback.DetectedTierIsHighest` | src/vkblas/vkblas.c:878-884 | for all capabilities and both settings of the opt-in: the detected tier is the largest whose needs are met; without the opt-in cooperative matrices do not matter |
| `PipelineFallback.RedetectMeans` | src/vkblas/vkblas.c:855-889 | a failed query changes nothing; a successful one sets tier and flag and leaves table, counter and driver calls alone; a new context is empty |
| `PipelineAnswers.EnsureHit` | src/vkblas/vkblas.c:470-476 | one ensure on a cached request: the pipeline of the highest cached tier up to the active one, and no change |
| `PipelineAnswers.EnsureCreates` | src/vkblas/vkblas.c:478-569 | one ensure on a miss, from the active tier down: what the driver creates at the highest accepting tier, stored under the key of that tier |
| `PipelineAnswers.EnsureRefused` | src/vkblas/vkblas.c:478-571 | one ensure that every tier refuses: the error of the lowest tried tier, or -8 when no tier has the kernel; the table stays |
| `PipelineAnswers.EnsureL1L2Answers` | src/vkblas_l1l2/vkblas_l1l2.c:95-167 | one L1/L2 ensure by cases: cached, no shader (-8), created and stored, refused with the driver's own error |
| `PipelineAnswers.StoredDescription` | src/vkblas/vkblas.c:547-565 | a stored entry records its request and tier, and has the convolution layout exactly for the convolution kernel |
| `PipelineAnswers.StoredL1L2Description` | src/vkblas_l1l2/vkblas_l1l2.c:138-158 | an L1/L2 entry records its data type, the active tier and the common layout |
| `PipelineRuns.TableNeverFills` | src/vkblas/vkblas.c:547-565 | a table of public keys holds at most 165 of its 256 entries, so the missing else-branch for a full table is never reached |
| `PipelineRuns.StoreKeeps` | src/vkblas/vkblas.c:542-565 | storing a created pipeline always succeeds, raises the count by one and keeps the invariant |
| `PipelineRuns.CreateKeeps` | src/vkblas/vkblas.c:480-569 | the tier walk keeps the invariant; a handle it returns is new under exactly one key, the request's at a tier up to the active one |
| `PipelineRuns.EnsureGemmKeeps` | src/vkblas/vkblas.c:464-572 | a GEMM ensure keeps the table, counter and ownership invariant for every driver behaviour and adds at most one key, its own |
| `PipelineRuns.EnsureL1L2Keeps` | src/vkblas_l1l2/vkblas_l1l2.c:95-167 | an L1/L2 ensure on the same table keeps the same invariant and adds at most its own key |
| `PipelineRuns.FlushKeeps` | src/vkblas/vkblas.c:891-900 | a flush empties the map, resets the counter, and leaves every handle destroyed as often as it was created |
| `PipelineRuns.StepKeeps` | src/vkblas/vkblas.c:855-900 | every public step keeps the invariant |
| `PipelineRuns.RunKeepsInvariant` | src/vkblas/vkblas.c:464-572 | every run of public steps keeps it: reachability under both home functions, unique keys, counter equal to the number of valid entries, ownership accounted for |
| `PipelineRuns.NothingLeaks` | src/vkblas/vkblas.c:815-836 | over any run closed by a sweep, every pipeline was destroyed as often as it was created and every shader module was destroyed |
| `PipelineRuns.NewContextInvariant` | src/vkblas/vkblas.c:684-812 | a new context satisfies the invariant whether or not detection succeeds |
| `PipelineMemo.GemmMemoised` | src/vkblas/vkblas.c:464-476 | after a successful ensure, every later ensure of the same request returns the same handle with no driver call, until a flush or a re-detection |
| `PipelineMemo.L1L2Memoised` | src/vkblas_l1l2/vkblas_l1l2.c:102-106 | the same for the L1/L2 family, whatever the GEMM family inserts in between |
| `PipelineMemo.ForeignKey` | src/vkblas/vkblas.c:445-462 | a key another request or the other family adds does not change this request's answer |
| `PipelineMemo.HitSurvivesRun` | src/vkblas/vkblas.c:445-462 | a cached answer survives every run of creating calls |
| `PipelineMemo.SuccessIsCached` | src/vkblas/vkblas.c:542-569 | a successful ensure leaves the returned handle as the cached answer |
| `PipelineOwnership.HeldIsAlive` | src/vkblas/vkblas.c:542-569 | in every context of a public run, a handle the table holds is non-null and was created more often than destroyed |
| `PipelineOwnership.RunHolds` | src/vkblas/vkblas.c:542-569 | a held handle stays held through every public run without a flush, re-detections included |
| `PipelineOwnership.GemmHandleAlive` | src/vkblas/vkblas.c:464-572 | after any public run, a GEMM handle a caller obtains is alive, and stays alive through every further run without a flush |
| `PipelineOwnership.L1L2HandleAlive` | src/vkblas_l1l2/vkblas_l1l2.c:95-167 | the same for an L1/L2 handle |
| `PipelineOwnership.RunUsesModules` | src/vkblas/vkblas.c:495-535 | in every public run each pipeline is created while exactly one shader module is open |
| `QgemmDispatch.ResolvedExactly` | src/vkblas/vkblas.c:1483-1500 | the scan for the tier finds the bound pipeline's tier exactly when no entry of the kernel sits in an earlier slot |
| `QgemmDispatch.QgemmTierAgrees` | src/vkblas/vkblas.c:1483-1500 | after any run that does not lower the tier of a non-empty table, the scanned tier is that of the pipeline just bound |
| `QgemmDispatch.QgemmRunCovers` | src/vkblas/vkblas.c:1542-1606 | in such a run the dispatched grid covers every cell of the n by m output by exactly one workgroup and launches no idle one |
| `QgemmDispatch.GridCovers` | src/vkblas/vkblas.c:1597-1606 | rounding up by the tile covers the output exactly once, for every tile size and every output size |
| `QgemmDispatch.KernelWritesBlock` | shaders/vkblas/subgroup/qgemm_q4k.comp:59-150 | invocation by invocation: a workgroup of a quantized kernel writes exactly a 32 by 8 block at the subgroup tier and a 16 by 16 block at the others, each cell once |
| `QgemmDispatch.TileIsBlock` | src/vkblas/vkblas.c:1502-1517 | for the quantized kernels the host assumes that block at every tier |
| `QgemmDispatch.QgemmKernels` | src/vkblas/vkblas.c:1506-1513 | the quantized kernels are codes 5 to 13 and 32 to 38 |
| `QgemmDispatch.BlobWalkIsHighest` | src/vkblas/vkblas.c:1491-1499 | without an entry the resolved tier is the highest up to the active one that has the kernel |
| `QgemmDispatch.DispatchCovers` | src/vkblas/vkblas.c:1597-1606 | with settled tiers the grid sized for the scanned tier is an exact cover for the bound kernel |
| `QgemmDispatch.RunSettled` | src/vkblas/vkblas.c:855-889 | runs that do not lower the tier keep one entry per configuration, at or below the active tier |
| `QgemmDispatch.LoweredTierMismatch` | src/vkblas/vkblas.c:1476-1500 | a concrete run that lowers the tier: the bound pipeline is baseline while the scan reports the subgroup entry left behind |
| `QgemmDispatch.CoversWhen` | src/vkblas/vkblas.c:1506-1517 | for every tile, grid and output size: the grid covers the output if and only if it has the workgroups the tile needs along both dimensions |
| `QgemmDispatch.ExactCoverWhen` | src/vkblas/vkblas.c:1506-1517 | and no workgroup is idle if and only if it has exactly those |
| `QgemmDispatch.OtherTileCovers` | src/vkblas/vkblas.c:1506-1517 | a grid sized for one tile, under a kernel of the other: 32 by 8 under 16 by 16 covers if and only if n <= 16, 16 by 16 under 32 by 8 if and only if m <= 8; without idle workgroups if and only if both hold |
| `QgemmDispatch.DispatchCoversWhen` | src/vkblas/vkblas.c:1542-1606 | in every context that has an answer for the kernel, after any re-detections: exactly when the dispatched grid covers the output under the bound kernel |
| `QgemmDispatch.MismatchLeavesHole` | src/vkblas/vkblas.c:1506-1517 | in the context of that run, for all sizes: the dispatched grid covers the output if and only if n <= 16, without idle workgroups if and only if m <= 8 as well; 32 by 32 has a hole |
| `BlasContext.VkBLASContext.constructor` | src/vkblas/vkblas.c:733-798 | a new object stands for the empty context at the largest tier whose needs are met, or at the baseline if the query failed |
| `BlasContext.CreateContext` | src/vkblas/vkblas.c:684-813 | creation: a fresh context, or no context, the first refusal, and every resource created before it destroyed again |
| `BlasContext.VkBLASContext.InitCapabilities` | src/vkblas/vkblas.c:855-889 | the in-place update equals re-detection on the value: the largest tier whose needs are met, or no change and the query's own error |
| `BlasContext.VkBLASContext.GetCachedPipeline` | src/vkblas/vkblas.c:445-462 | the search from the active tier down equals the specified search and changes nothing |
| `BlasContext.VkBLASContext.StoreEntry` | src/vkblas/vkblas.c:547-565 | the insertion loop on the array equals insertion on the table value |
| `BlasContext.VkBLASContext.EnsurePipeline` | src/vkblas/vkblas.c:464-572 | status, handle, and whole new state equal those of the specified fallback |
| `BlasContext.VkBLASContext.EnsureL1L2Pipeline` | src/vkblas_l1l2/vkblas_l1l2.c:95-167 | the same for the second writer |
| `BlasContext.VkBLASContext.FlushPipelines` | src/vkblas/vkblas.c:891-900 | the sweep on the array equals the specified flush, with the destructions in slot order |
| `BlasContext.VkBLASContext.Destroy` | src/vkblas/vkblas.c:815-822 | destroying the context destroys every valid entry's pipeline and nothing else |
| `BlasContext.VkBLASContext.QgemmResolvedTier` | src/vkblas/vkblas.c:1483-1500 | the scan over the array returns the specified tier |
| `FourierTransform.HalfTurnIsPrincipal` | include/vkfft/vkfft.h:221-232 | in any commutative ring, for a power of two n, w^(n/2) = -1 alone makes w a principal n-th root of unity |
| `FourierTransform.InverseHalfTurn` | include/vkfft/vkfft.h:243-249 | the inverse of a half turn is a half turn, so the inverse direction runs whenever the forward one does |
| `FourierTransform.Orthogonality` | include/vkfft/vkfft.h:243-249 | the root sums are orthogonal: n on the diagonal and zero off it |
| `FourierTransform.ImpulseTransform` | src/vkfft/vkfft.c:491-509 | a grid that is zero except at (a, b) has the transform g[a][b] w^(ak + bl) |
| `FourierTransform.DftInversion` | include/vkfft/vkfft.h:243-249 | a transform followed by the transform with the inverse root multiplies by n |
| `FourierTransform.RowsThenColumns` | src/vkfft/vkfft.c:491-509 | the double sum is a transform along rows followed by one along columns |
| `FourierTransform.ColumnsThenRows` | src/vkfft/vkfft.c:491-509 | and equally the other way round |
| `FourierTransform.Dft2Inversion` | include/vkfft/vkfft.h:243-249 | forward then inverse in two dimensions multiplies every entry by n times n |
| `FourierTransform.EvenOddRecurrence` | shaders/vkfft/baseline/fft_f32.comp:88-111 | a transform of length 2h is the even half plus twiddle times the odd half |
| `FourierTransform.Butterfly` | shaders/vkfft/baseline/fft_f32.comp:96-108 | one butterfly yields frequencies k and k + h of the doubled transform |
| `FftKernel.CreatePlan` | src/vkfft/vkfft.c:274-294 | accepts exactly the powers of two from 2 to 1024 and records the logarithm |
| `FftKernel.BitReverse` | shaders/vkfft/baseline/fft_f32.comp:52-59 | the shift loop computes the digit reversal |
| `FftKernel.ReverseInvolution` | shaders/vkfft/baseline/fft_f32.comp:77-84 | digit reversal is its own inverse, so the load is a permutation |
| `FftKernel.ButterflyAt` | shaders/vkfft/baseline/fft_f32.comp:90-108 | the mask tests and index bit operations of a thread select the two cells of one butterfly |
| `FftKernel.StageAdvances` | shaders/vkfft/baseline/fft_f32.comp:88-111 | a stage turns transforms of half blocks into transforms of whole blocks |
| `FftKernel.Stage` | shaders/vkfft/baseline/fft_f32.comp:88-111 | all butterflies of a stage, in any order, leave each cell with its stage value |
| `FftKernel.LoadReversed` | shaders/vkfft/baseline/fft_f32.comp:70-83 | the load puts element i of the workgroup's slice at the digit reversal of i |
| `FftKernel.RunWorkgroup` | shaders/vkfft/baseline/fft_f32.comp:66-120 | one workgroup transforms its own slice and writes no other cell |
| `FftKernel.TransformShared` | shaders/vkfft/baseline/fft_f32.comp:77-111 | the log2 n stages take bit-reversed data in shared memory to the transform of the slice |
| `FftKernel.SlicesPartition` | src/vkfft/vkfft_internal.h:28-30 | in either mode the n slices partition the n times n cells, each cell with one owner and one position |
| `FftKernel.PassReadsItsSlice` | shaders/vkfft/baseline/fft_f32.comp:70-84 | a workgroup reads only cells it owns, so workgroups of a pass are independent |
| `FftKernel.StoreSlice` | shaders/vkfft/baseline/fft_f32.comp:113-119 | the strided store writes the slice and no other cell |
| `FftKernel.RunPass` | src/vkfft/vkfft.c:519-523 | the workgroups of a pass, in any order and also in place, transform every slice of the old buffer |
| `FftKernel.TwoPasses` | src/vkfft/vkfft.c:508-540 | the in-place column pass over the row pass gives the 2D transform at every cell |
| `FftKernel.ExecuteDir2D` | src/vkfft/vkfft.c:508-540 | after the two passes the output holds X[k][l], the double sum of the input; a plan that is not 2D is refused and nothing is written; a refused dispatch is reported and nothing after it runs |
| `FftKernel.RoundTrip2D` | include/vkfft/vkfft.h:243-249 | a grid transformed with w and then with its inverse v is the start grid times N times N, at every cell |
| `FftKernel.ForwardThenInverse` | src/vkfft/vkfft.c:542-550 | executing forward and then inverse leaves the input times N times N in the output, for every input and any sharing of the buffers; the status is success exactly when the plan is 2D and no dispatch is refused |
| `ComplexNumbers.ComplexIsRing` | shaders/vkfft/baseline/fft_f32.comp:62-64 | the kernel's complex product makes pairs of reals a commutative ring |
| `ComplexNumbers.ConjugateInverts` | shaders/vkfft/baseline/fft_f32.comp:86-87 | negating the angle of a twiddle on the unit circle inverts it |
| `ComplexNumbers.QuarterTurn` | shaders/vkfft/baseline/fft_f32.comp:98-104 | the forward twiddle for n = 4 is a principal root, so the theorems have an instance |
| `CoalescedGroup.NewTiledGroup` | specs/rocm-reference/amd_hip_cooperative_groups.h:393-443 | a group that is no tile: the loop returns the lanes whose rank lies in the caller's block of ranks, with the block number and the rounded-up number of blocks; a tile: the shifted mask; other sizes give the empty group |
| `CoalescedGroup.TiledAgainIsTile` | specs/rocm-reference/amd_hip_cooperative_groups.h:400-417 | on lanes in a row the shifted mask of the second branch is the tile of the first exactly when the first lane is a multiple of the size, and its number of tiles the rounded-up one exactly when the size divides the number of lanes |
| `CoalescedGroup.TiledAgainMeans` | specs/rocm-reference/amd_hip_cooperative_groups.h:400-417 | what the second branch gives on any group: lanes, count, mark, and both indices |
| `CoalescedGroup.CollectTile` | specs/rocm-reference/amd_hip_cooperative_groups.h:419-433 | the skip-and-take loop collects exactly that block |
| `CoalescedGroup.TilesPartition` | specs/rocm-reference/amd_hip_cooperative_groups.h:419-441 | tiles contain their caller, lie in the group, and are equal or disjoint; equal exactly when a lane of one is in the other |
| `CoalescedGroup.TileSize` | specs/rocm-reference/amd_hip_cooperative_groups.h:419-441 | every tile but the last has the full size and the last has the rest |
| `CoalescedGroup.EveryMetaRankOccurs` | specs/rocm-reference/amd_hip_cooperative_groups.h:436-439 | every index below the reported number of tiles is some lane's tile number |
| `CoalescedGroup.RankInTile` | specs/rocm-reference/amd_hip_cooperative_groups.h:465-467 | a lane's rank in its tile is its parent rank modulo the tile size |
| `CoalescedGroup.RetileValidSizes` | specs/rocm-reference/amd_hip_cooperative_groups.h:393-443 | tiling a tile by a smaller power of two equals tiling the parent by it |
| `CoalescedGroup.BlockTileIsMaskTile` | specs/rocm-reference/amd_hip_cooperative_groups.h:249-266 | the size, index and number of tiles a thread block computes by arithmetic are those the mask loop gives on a group with every lane active |
| `CoalescedGroup.ShuffleReadsRank` | specs/rocm-reference/amd_hip_cooperative_groups.h:495-504 | for every signed source rank: shfl reads the lane of that rank modulo the size, on the full-mask path and on the search path alike, exactly when the rank is not negative or is a multiple of the size |
| `CoalescedGroup.ShuffleLaneByRank` | specs/rocm-reference/amd_hip_cooperative_groups.h:495-504 | what shfl passes on for every signed source rank, the negative remainders of a truncating division included |
| `CoalescedGroup.ShuffleDownReads` | specs/rocm-reference/amd_hip_cooperative_groups.h:520-541 | which lane shfl_down reads, for every 32-bit offset |
| `CoalescedGroup.ShuffleDownDocumented` | specs/rocm-reference/amd_hip_cooperative_groups.h:516-541 | exactly when the documented wrap-around source is read, for every 32-bit offset: rank plus offset below the size, or the offset a multiple of it, or, where the offset has become negative, 2^32 - 2 a multiple of it |
| `CoalescedGroup.ShuffleUpReads` | specs/rocm-reference/amd_hip_cooperative_groups.h:557-578 | which lane shfl_up reads, for every 32-bit offset |
| `CoalescedGroup.ShuffleUpDocumented` | specs/rocm-reference/amd_hip_cooperative_groups.h:553-578 | exactly when the documented source is read, for every 32-bit offset, in the same way |
| `CoalescedGroup.BinaryPartition` | specs/rocm-reference/amd_hip_cooperative_groups.h:1257-1265 | every lane is in the part of its own predicate only, and the sizes add up |
| `HalfAtomics.Linearizable` | specs/rocm-reference/amd_hip_fp16.h:875-891 | after any interleaving the word and every returned value are those of the completed calls run one at a time in exchange order, each exactly once |
| `HalfAtomics.ReturnsWordBefore` | specs/rocm-reference/amd_hip_fp16.h:875-891 | a completed call returned the word its own addition started from, and that addition is the next value of the word |
| `HalfAtomics.RealTimeOrder` | specs/rocm-reference/amd_hip_fp16.h:875-891 | a call that completed first comes first in that order |
| `HalfAtomics.RunsAreBounded` | specs/rocm-reference/amd_hip_fp16.h:883-889 | n calls take at most n(n + 1) steps under any interleaving: each failed exchange is paid for by another call's success |
| `HalfAtomics.CallCanMove` | specs/rocm-reference/amd_hip_fp16.h:883-889 | a call that has not completed always has an enabled step |
| `HalfAtomics.StepKeeps` | specs/rocm-reference/amd_hip_fp16.h:875-891 | every step keeps the history, the log and every call's view of them consistent |
| `HalfAtomics.RunExtends` | specs/rocm-reference/amd_hip_fp16.h:911-918 | completed calls keep their result and the order only grows |
| `HalfAtomics.CompletedWord` | specs/rocm-reference/amd_hip_fp16.h:875-891 | when no call can move, all have added once; where addition is exact the word is the start value plus all addends, whatever the interleaving |
| `HalfAtomics.HalvesAddTogether` | specs/rocm-reference/amd_hip_fp16.h:825-827 | each packed half is the fold of its own addends in the one common order |
| `GaussJordan.FindPivot` | src/vkkv/vkkv.c:96-102 | the search returns the first row at or below the diagonal with the largest entry of the column |
| `GaussJordan.PivotedReduces` | src/vkkv/vkkv.c:105-123 | one column step keeps the solutions, keeps the bound on what the matrix does to a vector, and finishes one more unit column |
| `GaussJordan.SolveLinear` | src/vkkv/vkkv.c:91-127 | 0: the left block is the identity and the system is reduced; -1: elimination failed, with a vector that shows the matrix within 1e-300 of singular |
| `GaussJordan.FinishedSolves` | src/vkkv/vkkv.c:84-90 | after a finished reduction a matrix X solves G X = B if and only if it is the right block |
| `GaussJordan.RefusalMeans` | src/vkkv/vkkv.c:89-103 | with threshold zero failure is exactly singularity; with the threshold of the code singular systems are always refused and refused ones are nearly singular |
| `GaussJordan.NonsingularRefused` | src/vkkv/vkkv.c:89-103 | a nonsingular system that is refused, so -1 does not mean singular |
| `GaussJordan.DiagonalRefused` | src/vkkv/vkkv.c:96-103 | exactly which diagonal systems are refused: those with a diagonal entry below 1e-300 in magnitude; for one row, its coefficient |
| `GaussJordan.SwapRows` | src/vkkv/vkkv.c:105-111 | exchanges two rows of the flat array and nothing else |
| `GaussJordan.ScaleRow` | src/vkkv/vkkv.c:113-116 | divides one row of the flat array by the pivot |
| `GaussJordan.ClearColumn` | src/vkkv/vkkv.c:118-124 | subtracts the pivot row's multiples from every other row, skipping zero entries |
| `Ridge.NormalMinimises` | include/vkkv/vkkv.h:108-119 | a solution of the normal equations minimises squared error plus penalty: moving by e costs the squared prediction of e plus the penalty of e |
| `Ridge.PenaltyExcludesKernel` | src/vkkv/vkkv.c:326-334 | with a penalty of at least d times 1e-300 no vector is nearly sent to zero |
| `Ridge.SingularMeans` | src/vkkv/vkkv.c:300-334 | with a penalty of at least zero the system of a head is singular if and only if the penalty is zero and the columns of the samples are dependent |
| `RidgeFit.ColumnProduct` | src/vkkv/vkkv.c:303-312 | the sample loop computes one entry of the normal equations |
| `RidgeFit.SolutionIsRidge` | src/vkkv/vkkv.c:302-334 | the solutions of the built system are exactly the ridge solutions |
| `RidgeFit.FitHead` | src/vkkv/vkkv.c:300-334 | success: a matrix is a ridge solution of the head if and only if it is the right block; refusal: if and only if elimination fails on the built system, then with a vector it nearly sends to zero; singular systems are refused, and a penalty of at least d times 1e-300 always succeeds |
| `RidgeFit.RefusedMeans` | src/vkkv/vkkv.c:326-334 | refused heads have a vector with a unit entry that X'X + lambda I sends to within 1e-300 of zero; heads with a kernel are refused |
| `RidgeFit.OneFeatureRefused` | src/vkkv/vkkv.c:326-334 | one feature: refused exactly when the sum of squares plus the penalty is below 1e-300 |
| `RidgeFit.TwoSamples` | src/vkkv/vkkv.c:303-323 | two samples of one feature, written out |
| `RidgeFit.TwoFeatures` | src/vkkv/vkkv.c:303-323 | one sample of two features, written out in the row-major order of the buffers |
| `RidgeFit.Fit` | src/vkkv/vkkv.c:265-356 | succeeds if and only if there are samples and no head is refused; then the rows of every head are that head's one ridge solution, and later heads do not disturb earlier ones |
| `RidgeFit.FittedMinimises` | include/vkkv/vkkv.h:108-119 | the stored rows minimise the head's regularised loss, column by column, against every other vector |
| `KvApply.GridCovers` | src/vkkv/vkkv.c:374-424 | all outputs are computed exactly when n times tgt_dim fits in 32 bits, and no thread leaves the output |
| `KvApply.Thread` | shaders/vkkv/baseline/apply.comp:29-42 | one thread writes its own cell with the dot product of the elements its 32-bit indices name, which always lie inside the buffers, and nothing else |
| `KvApply.Apply` | src/vkkv/vkkv.c:360-427 | for all sizes: after the dispatch every cell that has a thread holds the sum over the elements the 32-bit indices name, and every other cell is as before |
| `KvApply.SourceIndicesExact` | shaders/vkkv/baseline/apply.comp:39-39 | the kernel reads src[r][k] for every row and column exactly when n times src_dim is at most 2^32 |
| `KvApply.WeightIndicesExact` | src/vkkv/vkkv.c:379-379 | offset and index name W_h[k][j] for every head, row and column exactly when the stacked weights number at most 2^32 |
| `KvApply.Output32IsOutput` | include/vkkv/vkkv.h:134-142 | with that many elements at most, what a thread computes is the sum over k of src[r][k] W_h[k][j] |
| `KvApply.OutputWrittenOut` | shaders/vkkv/baseline/apply.comp:5-13 | one row of two features against the second of two heads, written out |
| `KvApply.AppliedFit` | include/vkkv/vkkv.h:108-142 | applying a fitted head gives the predictions of weights that minimise that head's loss |
| `Reductions.GroupsCover` | src/vkblas_l1l2/vkblas_l1l2.c:64-68 | the workgroup count covers the vector and leaves no workgroup without an element |
| `Reductions.Tree` | shaders/vkblas_l1l2/baseline/dot_partial_f32.comp:54-57 | the halving loop over 256 cells leaves their sum in cell 0 |
| `Reductions.PartialStage` | shaders/vkblas_l1l2/baseline/dot_partial_f32.comp:41-60 | stage one writes the sum of every 256-element segment, in any order of workgroups, and nothing beyond the partials |
| `Reductions.Finalize` | shaders/vkblas_l1l2/baseline/dot_finalize_f32.comp:38-54 | stage two leaves the sum of the partials in the first cell, however many there are |
| `Reductions.PartialsAddUp` | src/vkblas_l1l2/vkblas_l1l2.c:266-301 | the partials add up to the one-pass sum over any commutative monoid |
| `Reductions.Reduce` | include/vkblas_l1l2/vkblas_l1l2.h:102-134 | the first cell ends as the one-pass result, cells beyond ceil(n/256) are untouched, and n <= 0 changes nothing |
| `Reductions.ElementIndexExact` | shaders/vkblas_l1l2/baseline/dot_partial_f32.comp:47-49 | the kernels read element i times stride for every i exactly when the last index fits in 32 bits |
| `Amax.FoldIsFirstMaximum` | include/vkblas_l1l2/vkblas_l1l2.h:142-156 | the pair fold finds the lowest index of the largest magnitude |
| `Amax.PartialStage` | shaders/vkblas_l1l2/baseline/amax_partial_f32.comp:43-77 | every workgroup leaves the pair of its segment in its own two words |
| `Amax.Collect` | shaders/vkblas_l1l2/baseline/amax_finalize_f32.comp:45-54 | because partial indices increase, the strict comparison of the strided pass keeps the lowest index |
| `Amax.FirstMaximum` | include/vkblas_l1l2/vkblas_l1l2.h:142-156 | the first word ends as the converted lowest index of the largest magnitude, and words beyond 2 ceil(n/256) are untouched |
| `Amax.IndexExactUpTo` | shaders/vkblas_l1l2/baseline/amax_finalize_f32.comp:74-74 | the index stored as a float is exact for all vectors of n entries if and only if n is at most 2^24 + 1 |
| `QuantLayouts.ScalesRoundTrip` | include/vkblas/vkblas.h:573-578 | the twelve scale bytes of Q4_K and Q5_K and eight pairs of 6-bit numbers determine each other |
| `QuantLayouts.Q5RoundTrip` | include/vkblas/vkblas.h:655-660 | qs with qh and 256 five-bit levels determine each other |
| `QuantLayouts.Q6RoundTrip` | include/vkblas/vkblas.h:700-704 | ql with qh and 256 six-bit levels determine each other |
| `QuantLayouts.Q3RoundTrip` | include/vkblas/vkblas.h:744-750 | hmask with qs and 256 levels from -4 to 3 determine each other |
| `QuantLayouts.Scales3RoundTrip` | shaders/vkblas/baseline/qgemm_q3k.comp:117-132 | the twelve scale bytes of Q3_K and sixteen six-bit scales determine each other |
| `QuantLayouts.IQ4RoundTrip` | include/vkblas/vkblas.h:791-795 | scales_l with scales_h and eight six-bit scales determine each other |
| `QuantLayouts.WordCrumb` | include/vkblas/vkblas.h:793-793 | the two bits the formula takes from the 16-bit word are those of one of its bytes |
| `QuantBits.ScaleBits` | include/vkblas/vkblas.h:573-578 | which stored bit every bit of a Q4_K and Q5_K scale and minimum is |
| `QuantBits.Q5Bits` | include/vkblas/vkblas.h:655-660 | which stored bit every bit of a Q5_K level is |
| `QuantBits.Q6Bits` | include/vkblas/vkblas.h:700-704 | which stored bit every bit of a Q6_K level is |
| `QuantBits.Q3Levels` | include/vkblas/vkblas.h:744-750 | a Q3_K level from its three stored bits |
| `QuantBits.Scale3Bits` | shaders/vkblas/baseline/qgemm_q3k.comp:117-132 | which stored bit every bit of a Q3_K scale is |
| `QuantBits.IQ4Bits` | include/vkblas/vkblas.h:791-795 | which stored bit every bit of an IQ4_XS scale is |
| `Convolution.Conv2Is3` | src/vkblas/vkblas_conv12d.c:13-31 | the 3D convolution with unit depth, stride and dilation and no padding there is the 2D convolution by its own indices, for all shapes |
| `Convolution.Conv1Is3` | src/vkblas/vkblas_conv12d.c:33-47 | with a unit height as well it is the 1D convolution |
| `Convolution.CellOfPlace` | shaders/vkblas/baseline/conv_rb2_f32.comp:34-61 | splitting a flat output by division and remainder and flattening it again gives its NKDHW cell |
| `ConvolutionMeaning.CoordinateSteps` | shaders/vkblas/baseline/conv_rb2_f32.comp:68-78 | one output on moves the coordinate by the stride, one tap on by the dilation, and the first is minus the padding |
| `ConvolutionMeaning.TapResponse` | include/vkblas/vkblas.h:1207-1243 | with a single weight v the output is alpha times v times the input element at o stride + f dil - pad, with both positions written out in the KCDHW and NCDHW layouts, and zero in other channels |
| `ConvolutionMeaning.ConvolutionAdds` | include/vkblas/vkblas.h:1207-1243 | outputs add up over the weights, so those responses determine the convolution |
| `ConvolutionMeaning.TapResponse2` | include/vkblas/vkblas.h:1271-1284 | the same for conv2d in KCHW and NCHW |
| `ConvolutionMeaning.TapResponse1` | include/vkblas/vkblas.h:1256-1268 | the same for conv1d in KCL and NCL |
| `ConvKernel.GridCovers` | src/vkblas/vkblas.c:666-669 | every output has a thread exactly when there are fewer than 2^32 - 1 spatial outputs; no thread computes anything else |
| `ConvKernel.AxisExactWhen` | shaders/vkblas/baseline/conv_rb2_f32.comp:68-78 | all casts to signed words, of coordinates and of the size, are harmless exactly when the size, the first and the last coordinate fit |
| `ConvKernel.ReadsAtWhen` | shaders/vkblas/baseline/conv_rb2_f32.comp:27-30 | one tap is read right exactly when its coordinate lies inside or does not wrap into the axis; with a size of 2^31 or more, exactly when it does not lie inside |
| `ConvKernel.AxisReadsWhen` | shaders/vkblas/baseline/conv_rb2_f32.comp:27-30 | with a last coordinate below 2^32 and a size below 2^31, a whole axis is read right exactly when size and padding together are at most 2^32 |
| `ConvKernel.LargeAxisReads` | shaders/vkblas/baseline/conv_rb2_f32.comp:27-30 | an axis of 2^31 or more is read right exactly when no tap of any output lies inside it |
| `ConvKernel.FlatIndicesExact` | shaders/vkblas/baseline/conv_rb2_f32.comp:29-36 | positions computed in 32 bits are the true ones throughout a tensor exactly when it has at most 2^32 cells |
| `ConvKernel.Sums` | shaders/vkblas/baseline/conv_rb2_f32.comp:63-84 | the shared loop nest computes both outputs' sums over channels and taps |
| `ConvKernel.Dispatch` | shaders/vkblas/baseline/conv_rb2_f32.comp:38-88 | after the dispatch every output cell holds the convolution at its place, whatever it held before and whatever beta is |
| `ConvKernel.Conv3dCell` | include/vkblas/vkblas.h:1207-1243 | the NKDHW cell of a place holds its 3D convolution |
| `ConvKernel.Conv2dCell` | include/vkblas/vkblas.h:1271-1284 | conv2d: the NCHW cell holds the 2D convolution |
| `ConvKernel.Conv1dCell` | include/vkblas/vkblas.h:1256-1268 | conv1d: the NCL cell holds the 1D convolution |
| `HalfWiden.Normalise` | src/vkblas/vkblas.c:69-69 | for any significand width the loop ends with the leading bit set and keeps significand times power of two |
| `HalfWiden.NormalKept` | src/vkblas/vkblas.c:75-75 | widening a normal number keeps its value for every pair of formats with room |
| `HalfWiden.SubnormalKept` | src/vkblas/vkblas.c:67-71 | so does widening a normalised subnormal |
| `HalfWiden.HalfToSingle` | src/vkblas/vkblas.c:55-81 | sign kept, finite values kept exactly, infinities and NaNs kept with their payload, for all 65536 patterns |
| `HalfWiden.HalfMasks` | src/vkblas/vkblas.c:57-59 | the masks and shifts pick out the three fields |
| `HalfWiden.FieldAnchors` | src/vkblas/vkblas.c:57-81 | the patterns of one, infinity, the sign and the extreme finite halves have the fields the standard gives them |
| `HalfWiden.ValueAnchors` | src/vkblas/vkblas.c:57-81 | and stand for one, 2^-24 and 65504 |
| `SpirvPrinter.Emit` | cmake/spirv_to_header.py:33-42 | emits one text per word in order and the byte length, or fails when the size is not a multiple of 4 |
| `SpirvPrinter.EmittedIsFile` | cmake/spirv_to_header.py:33-42 | parsing the emitted words and unpacking them low byte first returns the file, and the emitted length is four times the word count |
| `SpirvPrinter.WordTextRoundTrip` | cmake/spirv_to_header.py:40-40 | eight hexadecimal digits determine the word |
| `SpirvPrinter.WordRoundTrip` | cmake/spirv_to_header.py:39-39 | a packed word determines its four bytes |
| `SpirvPrinter.PackIsSum` | cmake/spirv_to_header.py:39-39 | the first byte of a word is its lowest |
| `SpirvPrinter.WordTextIs` | cmake/spirv_to_header.py:40-40 | the text of a word, character by character |
| `SpirvPrinter.DigitCharIs` | cmake/spirv_to_header.py:40-40 | the sixteen digits are 0 to 9 and A to F |
| `SpirvPrinter.JoinWrittenOut` | cmake/spirv_to_header.py:41-42 | a comma and a space stand between words |

## Left out

- Vulkan itself: shader modules and pipelines are the driver's answers; descriptor sets, barriers, command recording, device memory and null-argument checks are not modelled beyond the order of the stages.
- Rounding: sums and products are over the reals or over any commutative monoid or ring, so nothing is said about floating-point error, NaN or infinities in the numeric kernels.
- Twiddles: the cosine and sine of a stage's angle are taken to be the powers of one root of unity; the angle addition formulas behind that are not proved.
- FFT: the 1D entry points, the f16 kernel and the FFT library's own smaller copy of the pipeline table are not modelled.
- GEMM, quantized GEMM, triangular solve, symmetric update and attention kernels: only the grid of the quantized GEMM is modelled.
- Coalesced groups: the find-nth-set and shuffle intrinsics are given the meaning their names have and are not part of the repository; what the shuffle intrinsic does with a lane number that names no lane is left open.
- Half atomics: the hardware branch of `unsafeAtomicAdd` and the additions to a single half.
- Pipeline layouts, beyond which of the two an entry records, and the cooperative-matrix property enumeration at context creation, which sets the flag that detection also sets.
- Lookup tables of the iQuant formats, and the products with block scales that follow decoding.
- Out-of-memory results of the fit and the upload of the fitted weights; the weights stay in the host buffer here.
- Fixed lines and array names of the generated C header.
- Reductions.Reduce: elements are a function of their index; ElementIndexExact says when the 32-bit index is the intended one.
- ConvKernel.Dispatch: requires that the axes are read right, that no tensor has more than 2^32 elements and that there are fewer than 2^32 - 1 spatial outputs; ReadsAtWhen, AxisReadsWhen and LargeAxisReads, FlatIndicesExact, and GridCovers say exactly when each of these holds. What the kernel stores otherwise is not stated. Threads run one after another, since they write different cells.
- KvApply.AppliedFit: the second clause needs at most 2^32 source elements and weights, which SourceIndicesExact and WeightIndicesExact show to be exactly when the kernel's indices are the intended ones.
- RidgeFit.Fit: host allocation and upload failures and the rounding of the weights to float are not modelled, because the elimination is over the reals; on a refusal nothing is said about the host buffer, which the code then discards.
- GaussJordan.RefusalMeans: at the threshold of the code the two directions have different conditions, singular and nearly singular; which nonsingular systems are refused depends on the pivots elimination meets.
- HalfWiden.HalfToSingle: masks are proved to pick out the fields; shifts are written as multiplication and division by powers of two.
