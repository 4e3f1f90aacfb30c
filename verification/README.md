# DisCoTec in Dafny

A model of the algorithms of DisCoTec, the distributed combination technique, with proofs of what they are for.

DisCoTec solves a problem on many coarse, anisotropic *component grids*, each distributed over the ranks of a
process group.  From time to time all grids are transformed to a hierarchical basis, their hierarchical
coefficients are added up with the coefficients of a combination scheme, and the result is written back to all
grids.  The model covers:

1. **Distributed (de)hierarchization.**  In-place kernels along the *poles* of a grid, the index sets that the
   ranks of a pole exchange, and the refinement from many ranks with partial knowledge to one sequential
   transform of the whole d-dimensional grid.  `Poles`, `Ancestry`, `SuccessorSearch`, `PredecessorSearch`,
   `PoleExchange`, `DirectExchange`, `Lifting`, `Bases`, `Kernels`, `HatKernels`, `KernelStages`, `Wavelets`, `Mass`,
   `GridMass`, `LocalTransform`, `PoleSweep`, `NoBoundary*`, `GridSweep`, `GridTransform`, `DistributedGrid`,
   `InnerGrid`, `GridExchange`, `SliceExchange`, `Delivery`, `AllExchange`, `ProcessGrid`, `DistributedTransform`,
   `DistributedRun`, and the serial code in `Serial*`.  What the transforms mean, as functions and not as steps, is in
   `LinearTransforms`, `HatFunctions`, `TensorProduct` and `Interpolation`.
2. **Combination schemes and fault recovery.**  Coefficients as Moebius inversion over level sets that are closed
   downwards.  `LevelSets`, `LevelGeneration`, `CombiScheme`, `SchemeFront`, `ClassicalCoefficients`,
   `DummyDimensions`, `ClassicalScheme`, `AdaptiveScheme`, `FaultDownset`, `FaultRecovery`, `MaximalSolutions`,
   `LpOptimization`, `RecoveredScheme`, `FaultTolerantScheme`, `SchemeParameters`, `SchemeRecovery`, `RestoredScheme`,
   `RecoveryCycle`, `RepeatedGrid`.
3. **Indexing and ownership.**  `Tensor`, `LevelLists`, `Downsampling`, `SubspacePoints`, `SharedPoints`,
   `DefaultDecomposition`.
4. **Chunk-wise combination.**  `Chunks`, `ChunkedReduce`, `Consistency`.
5. **Two systems and a broker.**  A step relation over message channels: `ThirdLevel` and its companions.
6. **Scheduling, counting and the advection solver.**  `LoadBalancing`, `LoadBalancingBound`, `TaskDistribution`,
   `PartitionedCount`, `PartitionedPoints`, `GridCounts`, `DownSetCounts`, `LocalUpwind`, `UpwindGrid`, `Advection`,
   `UpwindFacts`, `RunFacts`, `StepSize`.

Code that changes arrays, maps or fields is modelled by methods that do the same, and each of them is proved
against a specification function; the properties are lemmas about those functions.  Values are `real`, indices
and levels are unbounded integers, and powers of two are exact.  A remote or stale cell of a pole holds an
arbitrary value, so a result that is proved does not depend on it.

`dafny verify dfyconfig.toml` checks the project.

## Findings

Places where the code does something else than one would expect; each is stated by a lemma.

- The adaptive scheme can come out without any grid and without an error (src/combischeme/CombiMinMaxScheme.cpp:72-96),
  for example for lmin (2,2,2) and lmax (4,2,2): `CombiScheme.StretchedSchemeIsEmpty`.  `CombiScheme.SchemeHasLevel`
  says exactly when this happens.
- The classical scheme has a coefficient but no grid in its list if and only if lmin equals lmax
  (src/combischeme/CombiMinMaxScheme.cpp:24-29): `ClassicalScheme.EqualLevelsHaveNoGrid`.
- A list of subspaces that fits below the limit is cut all the same if a later subspace is empty
  (src/combicom/CombiCom.hpp:204-231): `Chunks.EmptySubspaceCuts`, and exactly then: `Chunks.OneChunk`.  A chunk has no
  such subspace, so cutting it again gives one chunk (src/combicom/CombiCom.hpp:292-295).
- The classical construction puts the i-th entry of the maximal level back into the i-th dummy dimension instead of the
  level of that dimension (src/combischeme/CombiMinMaxScheme.cpp:44-50).  In the example of its own comment, lmin (2,2,2)
  and lmax (4,4,2) (src/combischeme/CombiMinMaxScheme.cpp:11-12), the third dimension gets level 4:
  `ClassicalScheme.DummyGetsWrongLevel`.  `ClassicalScheme.DummyLevelsAreRight` says exactly when the levels are right.
- Fault recovery computes coefficients for a whole down set but returns only those of the given grids
  (src/fault_tolerance/LPOptimizationInterpolation.cpp:274-275).  With the grids of the classical scheme alone a single
  fault loses a coefficient: `FaultTolerantScheme.LostCoefficient`.  `RecoveredScheme.LeavingOutIsHarmless` says for every
  solution when this does no harm, `RecoveredScheme.GivenSufficeAlways` when it does none whatever fails, and
  `FaultTolerantScheme.DiagonalsAreNeeded` which diagonals have to be given on the levels of a scheme: if faults are looked
  for on its own two finest diagonals, exactly two more than it uses.
- `makeFaultTolerant` (src/combischeme/CombiMinMaxScheme.cpp:102-116) chooses its two diagonals as if all level differences
  were equal, but is called after the adaptive construction (src/manager/ProcessManager.cpp:370-371,
  examples/combi_example_faults/combi_example_faults.cpp:86-87, examples/gene_distributed/src/manager.cpp:305-306,
  examples/gene_distributed_linear/src/manager.cpp:220-221), whose finest diagonal lies lower if dimensions lag:
  `AdaptiveScheme.AdaptiveIsSimplex`.  This has three consequences:
  - It can leave out a diagonal that recovery needs, as for lmin (1,1) and lmax (5,6):
    `FaultTolerantScheme.DiagonalIsMissed`, and exactly when: `FaultTolerantScheme.ExtraGridsSuffice`.
  - It can append a grid that is there already (exactly when: `AdaptiveScheme.GridsRepeat`), and then resetting the
    coefficients level by level (src/manager/ProcessManager.cpp:375-377) may not undo a recovery: for lmin (1,1) and
    lmax (3,2), after grid (1,2) has failed once, subspace (1,1) is counted twice (`RepeatedGrid.GridIsRepeated`; exactly
    when this happens: `RecoveryCycle.RestoringIsExact`).
  - It can append the finest diagonal itself, whose coefficients are then overwritten with zero
    (src/manager/CombiParameters.hpp:188-193), so that its grids are not in the down set and their constraint rows are never
    written (src/fault_tolerance/LPOptimizationInterpolation.cpp:175-185): for lmin (1,1) and lmax (2,4) no coefficient is
    left at all (`RepeatedGrid.NothingIsStored`; exactly when this happens: `RecoveryCycle.DictionaryIsGiven`).
- For the same reason the optimisation may look for faults on diagonals without any grid
  (src/fault_tolerance/LPOptimizationInterpolation.cpp:26-31) and then does nothing, as for lmin (1,1,1) and lmax (5,4,4):
  `SchemeRecovery.NoFaultIsSeen`, and exactly when: `SchemeRecovery.FaultsAreSeen`.
- The process manager asserts that recovered coefficients add up to one (src/manager/ProcessManager.hpp:622-633).  If the
  minimal level does not lie below the two diagonals on which faults are looked for, all grids may fail and the sum is zero;
  otherwise the coefficients of the down set add up to one whatever fails (`FaultTolerantScheme.CoefficientsAddUpToOne`),
  and so do those of the grids alone if these suffice (`FaultTolerantScheme.RecoveryIsComplete`).
- The step size check of the advection task has no lower limit
  (examples/distributed_third_level/TaskAdvection.hpp:65-72), so it accepts negative steps, after which values leave their
  bounds: `StepSize.NegativeStepLeavesBounds`, and exactly then: `StepSize.BoundsAreKeptExactly`.
- On level 1 the partitioned count (src/combischeme/CombiMinMaxScheme.hpp:265-274) assigns a point that lies on a cut to
  the process before the cut: `PartitionedCount.LevelOneIsExactUnlessCut`.  `PartitionedPoints.LevelOneExtentIsExact` says
  exactly when a process is counted what it stores.
- The left predecessor test `idx - parentOffset > 0` for poles without boundary
  (src/hierarchization/DistributedHierarchization.hpp:1013-1026) excludes index 0, which would be wrong for a predecessor;
  `NoBoundary.FirstIsNoPredecessor` shows that index 0 is never one.
- The test on the sum of differences in `get_inv_M` (src/fault_tolerance/FTUtils.cpp:107-110) is always true; the entries
  are right because of the other conditions: `FaultRecovery.GetInvM`.

## Model

| member | source | states |
|---|---|---|
| Poles.Pole.Neighbor | src/fullgrid/DistributedFullGrid.hpp:617-633 | every index of the grid is owned by the rank returned, and -1 is returned exactly outside of the grid |
| Poles.Pole.PredecessorsAreCoarser | src/fullgrid/DistributedFullGrid.hpp:687-718 | both predecessors of a point that is not on the boundary lie within the pole with its boundary and have a strictly smaller level |
| Poles.Pole.SuccessorLevel | src/fullgrid/DistributedFullGrid.hpp:651-683 | the points at distance 2^k from a point with more than k trailing zero bits have exactly level lmax - k |
| Ancestry.CoverStep | src/hierarchization/DistributedHierarchization.hpp:535-600 | a point is covered exactly by its two predecessors and by what covers one of them: the recursive and the closed description of ancestors take the same step |
| Ancestry.AncestorsCover | src/hierarchization/DistributedHierarchization.hpp:535-600 | for every boundary kind and lmin, being an ancestor (by following predecessors through levels above lmin) is the same as having a basis function whose support contains the point; index 0 of a periodic pole stands for the virtual last point |
| SuccessorSearch.CheckLeftSuccessors | src/hierarchization/DistributedHierarchization.hpp:447-484 | the recursion over left successors adds its root for exactly those other ranks that own an index within the reach of the point on the left, and changes nothing else |
| SuccessorSearch.CheckRightSuccessors | src/hierarchization/DistributedHierarchization.hpp:486-533 | the same on the right, where index 0 of a periodic pole also meets the owners of the mirrored indices |
| PredecessorSearch.GetNextIndex1d | src/hierarchization/DistributedHierarchization.hpp:604-621 | the first local index after idx that is a candidate for a visit, or the index after idx if there is none |
| PredecessorSearch.NextCandidateIsSafe | src/hierarchization/DistributedHierarchization.hpp:604-621 | moving on to that index skips only points whose support is local |
| PredecessorSearch.JumpIsSafe | src/hierarchization/DistributedHierarchization.hpp:560-600 | jumping to a local right predecessor skips only points whose support is local |
| PredecessorSearch.CheckPredecessors | src/hierarchization/DistributedHierarchization.hpp:535-600 | adds only remote ancestors of idx, all of them on the left, and on the right too at the end of the part; the index it returns may be visited next without missing anything |
| PoleExchange.NeededIsSupport | src/hierarchization/DistributedHierarchization.hpp:419-600 | an index is needed by a rank exactly if its support meets the part of that rank |
| PoleExchange.SkippingIsHarmless | src/hierarchization/DistributedHierarchization.hpp:419-445 | indices that the traversal skips need not be sent to anybody |
| PoleExchange.EndsNeedEverything | src/hierarchization/DistributedHierarchization.hpp:419-445 | what the first local point needs on its left and the last one on its right is all that any local point needs from others |
| PoleExchange.ExchangeData1dDehierarchization | src/hierarchization/DistributedHierarchization.hpp:419-445 | computed without communication, the send set of me for r and the receive set of r from me are one and the same set Needed(me, r), and it is exactly the ancestors that r needs and me owns, for every decomposition, lmin and boundary kind |
| AllExchange.ExchangeAllData1d | src/hierarchization/DistributedHierarchization.hpp:255-317 | each rank notes all its indices for every other rank, and every other index for its owner |
| DirectExchange.NeededByIsOwnsSuccessor | src/hierarchization/DistributedHierarchization.hpp:319-409 | an index is a direct predecessor of a point of rank r exactly if r owns one of its direct successors on a finer level |
| DirectExchange.SkippingIsHarmless | src/hierarchization/DistributedHierarchization.hpp:319-409 | points skipped by jumping to right predecessors have only local direct predecessors and successors |
| DirectExchange.ExchangeData1d | src/hierarchization/DistributedHierarchization.hpp:319-409 | the send and receive sets of any two ranks match and are exactly the direct predecessors that the receiver needs, although the traversal skips points |
| Lifting.UndoApply | src/hierarchization/DistributedHierarchization.hpp:637-882 | every elementary in-place step of the kernels has an inverse step; a periodic one needs equal end values |
| Bases.StageRoundTrip | src/hierarchization/DistributedHierarchization.hpp:637-882 | one level of hierarchization and one level of dehierarchization undo each other in both orders, and keep equal end values equal |
| Bases.RoundTrip | src/hierarchization/DistributedHierarchization.hpp:637-882 | for every basis and 0 <= lmin <= lmax the kernels are two-sided inverses on a pole if and only if a periodic basis is given equal end values |
| HatKernels.HierarchizeHat | src/hierarchization/DistributedHierarchization.hpp:637-667 | the running steps, offset, stepsize and parentOffset visit exactly the points of each level above lmin with their two parents: the array becomes the staged transform of its old contents |
| HatKernels.DehierarchizeHat | src/hierarchization/DistributedHierarchization.hpp:770-799 | the same from coarse to fine; together with Bases.RoundTrip the inverse of HierarchizeHat |
| Kernels.HierarchizeFullWeighting | src/hierarchization/DistributedHierarchization.hpp:680-714 | the in-place loops compute the staged averaging and decomposition of all treated levels, with periodic or one-sided ends; what a stage makes of every point is KernelStages.LevelByLevel |
| Kernels.DehierarchizeFullWeighting | src/hierarchization/DistributedHierarchization.hpp:804-840 | its inverse, in place, with the stages of KernelStages.LevelByLevel in the opposite order |
| Kernels.HierarchizeBiorthogonal | src/hierarchization/DistributedHierarchization.hpp:726-768 | the in-place kernel equals the staged decomposition and updating steps |
| Kernels.DehierarchizeBiorthogonal | src/hierarchization/DistributedHierarchization.hpp:842-882 | its inverse, in place |
| KernelStages.LevelByLevel | src/hierarchization/DistributedHierarchization.hpp:637-882 | every kernel treats the levels one by one, from the finest to the coarsest or back, and at each level it gives every point exactly the combination of old and new neighbours that its basis has there, with all weights written out, for odd and even multiples of the spacing and for both ends, periodic or not |
| KernelStages.ConstantsVanish | src/hierarchization/DistributedHierarchization.hpp:637-768 | hierarchizing a constant leaves zero at every point of the treated levels and the constant at every coarser one, in every basis |
| Wavelets.FullWeightingWavelet | src/hierarchization/DistributedHierarchization.hpp:670-671 | the documented stencil: one surplus of the full weighting basis, dehierarchized by one level, is the hat wavelet -1/2, 1, -1/2 and zero elsewhere |
| Wavelets.BiorthogonalIsWavelet | src/hierarchization/DistributedHierarchization.hpp:716-718 | the documented stencil: one surplus of the biorthogonal basis is the wavelet -1/8, -1/4, 3/4, -1/4, -1/8 and zero elsewhere |
| HatFunctions.SurplusGivesHat | src/hierarchization/DistributedHierarchization.hpp:770-799 | dehierarchizing a single surplus over all treated levels gives the hat function of its point: one there, zero at the distance of the spacing of its level and beyond, linear in between |
| Mass.MassIsConserved | src/hierarchization/DistributedHierarchization.hpp:680-768 | full weighting and biorthogonal hierarchization keep the trapezoidal mass: the coarse points with their wider spacing have the mass of the input |
| GridMass.MassAndStepCommute | src/hierarchization/DistributedHierarchization.hpp:1122-1210 | the trapezoidal sum along one dimension commutes with a step along another |
| GridMass.GridMassIsConserved | src/hierarchization/DistributedHierarchization.hpp:1122-1210 | in any number of dimensions the sweep keeps the mass of the whole grid, taken as trapezoidal sums along all dimensions, if every selected dimension has a full weighting or biorthogonal basis |
| GridMass.MassIsTheSameEverywhere | src/hierarchization/DistributedHierarchization.hpp:1122-1210 | that mass is a single number: it does not depend on the cell from which the sums are taken |
| NoBoundary.HierarchizedIsSurplus | src/hierarchization/DistributedHierarchization.hpp:637-667 | in closed form, hat hierarchization leaves at every point of the treated levels its value minus the mean of its two direct predecessors before hierarchization |
| NoBoundary.FirstIsNoPredecessor | src/hierarchization/DistributedHierarchization.hpp:1013-1026 | the test idx - parentOffset > 0, which excludes index 0, never excludes a predecessor, so the parent values are those of the pole with zero boundary values |
| NoBoundaryKernels.GetFirstIndexOfLevel1d | src/hierarchization/DistributedHierarchization.hpp:623-635 | the first local point of a level, or -1 if and only if there is none |
| NoBoundaryKernels.HierarchizeNoBoundary | src/hierarchization/DistributedHierarchization.hpp:1002-1034 | every local point becomes its surplus with respect to zero boundary values, and no other cell changes |
| NoBoundaryKernels.DehierarchizeNoBoundary | src/hierarchization/DistributedHierarchization.hpp:1084-1112 | although level 1 is left out, the whole pole becomes the dehierarchized pole with zero boundary values, whatever it holds |
| LocalTransform.LocalResultIsExact | src/hierarchization/DistributedHierarchization.hpp:887-958 | with only local and received cells filled in and arbitrary values elsewhere, every local cell gets the value of the sequential transform of the whole pole, for every rank, basis and lmin |
| PoleSweep.TransformPole | src/hierarchization/DistributedHierarchization.hpp:920-956 | assembling, transforming and copying back one pole leaves the local slice of the transformed whole pole in its cells and changes no other cell |
| PoleSweep.SweepPoles | src/hierarchization/DistributedHierarchization.hpp:887-958 | after the two nested loops every local pole holds its slice of the transformed full pole, although one buffer is reused |
| NoBoundaryTransform.SurplusIsLocal | src/hierarchization/DistributedHierarchization.hpp:962-1040 | without boundary points, the surplus of a local point depends on local and received cells only |
| NoBoundaryTransform.DehierarchizationIsLocal | src/hierarchization/DistributedHierarchization.hpp:1043-1117 | and so does its dehierarchized value, whatever the other cells hold |
| NoBoundaryTransform.InnerRoundTrip | src/hierarchization/DistributedHierarchization.hpp:962-1117 | without boundary points the transforms are two-sided inverses |
| NoBoundarySweep.SweepInnerPoles | src/hierarchization/DistributedHierarchization.hpp:962-1117 | after the loop over poles every local pole holds its slice of the transformed full pole |
| GridSweep.StepsCommute | src/hierarchization/DistributedHierarchization.hpp:1122-1260 | elementary steps along different dimensions commute, for all boundary kinds |
| Interpolation.PolesGoToKernels | src/hierarchization/DistributedHierarchization.hpp:1122-1260 | a sweep over a selected dimension hands every pole of the grid to the kernel of its basis and direction; non-periodic biorthogonal data go to the non-periodic full weighting kernels |
| Interpolation.SurplusAlongAxis | src/hierarchization/DistributedHierarchization.hpp:1122-1178 | hierarchizing one dimension in the hat basis, with any kind of boundary: a cell of a level above lmin loses the mean of its two direct predecessors on its pole, and every other cell keeps its value |
| GridTransform.AxisRoundTrip | src/hierarchization/DistributedHierarchization.hpp:1122-1260 | sweeping one dimension back and forth restores the grid, in both orders, if and only if a periodic basis finds equal values at both ends of every pole, which a one-sided dimension always has; also for the non-periodic biorthogonal basis, which the dispatcher sends to the full weighting kernels |
| GridTransform.GridRoundTrip | src/hierarchization/DistributedHierarchization.hpp:1122-1260 | in any number of dimensions, with any mix of boundary kinds and bases, dehierarchization undoes hierarchization and the other way round, although both sweep the dimensions in ascending order, if and only if the ends of the poles match in every dimension with a periodic basis |
| TensorProduct.SweepIsProduct | src/hierarchization/DistributedHierarchization.hpp:1122-1260 | the sweeps over all dimensions in closed form, for every mix of bases, boundary kinds and selected dimensions and in both directions: the new value of a cell is the sum over all cells of the old value times one one-dimensional weight per dimension |
| Interpolation.DehierarchizationInterpolates | src/hierarchization/DistributedHierarchization.hpp:1201-1260 | in the hat basis dehierarchization evaluates, at every grid point of a d-dimensional grid, the sum of all surpluses times the tensor products of their hat functions |
| Interpolation.SurplusesInterpolate | src/hierarchization/DistributedHierarchization.hpp:1122-1178 | in the hat basis hierarchization computes the surpluses that interpolate the grid, and they are the only ones: numbers interpolate the grid function if and only if they are the hierarchized grid |
| DistributedGrid.GlobalOfMove | src/fullgrid/DistributedFullGrid.hpp:375-414 | moving along a dimension in the local array is moving along it in the global grid |
| DistributedGrid.SweepDimension | src/hierarchization/DistributedHierarchization.hpp:887-958 | a rank that holds its part of a grid function and has received what the exchange provides holds its part of the swept grid function afterwards |
| InnerGrid.SweepInnerDimension | src/hierarchization/DistributedHierarchization.hpp:962-1117 | the same for a dimension without boundary points |
| GridExchange.SamePoleNumber | src/hierarchization/DistributedHierarchization.hpp:93-244 | two ranks that differ in one dimension only see the same global pole under the same number |
| GridExchange.SentValueIsReceived | src/hierarchization/DistributedHierarchization.hpp:93-244 | the n-th value of a sent slice is the value of the receiver's n-th full pole at the sent index |
| SliceExchange.PackBlock | src/hierarchization/DistributedHierarchization.hpp:105-163 | a block of a message is the slice of the grid at its index, in the order of the other coordinates |
| DistributedTransform.PlansMatch | src/hierarchization/DistributedHierarchization.hpp:255-445 | what the ranks have noted for each other, every rank for itself and for every basis, is on both sides exactly what the receiver needs |
| DistributedTransform.ExchangeAll | src/hierarchization/DistributedHierarchization.hpp:93-445 | every rank works out its own sets, packs its slices in the order of its send set and unpacks them in the order of its receive set; then every rank has everything that its sweep needs |
| Delivery.DeliveredIsReceived | src/hierarchization/DistributedHierarchization.hpp:93-409 | if all ranks of a pole hold their parts of a grid function and the slices of the receive sets arrive, the receiver has everything that its sweep needs |
| Delivery.DeliveredIsReceivedInner | src/hierarchization/DistributedHierarchization.hpp:93-445 | the same without boundary points |
| ProcessGrid.OnOneLine | src/fullgrid/DistributedFullGrid.hpp:617-633 | the ranks along a dimension of the Cartesian arrangement store parts of the same poles: they differ in that dimension only |
| DistributedRun.TransformAll | src/hierarchization/DistributedHierarchization.hpp:1123-1260 | if all ranks hold their parts of any grid function, they hold their parts of the transformed d-dimensional grid after the loop over dimensions, for any Cartesian decomposition, boundary kinds and bases; with hat bases the parts are those of the surpluses that interpolate the grid function, or those of the function that the surpluses interpolate |
| DistributedRun.HeldGridIsUnique | src/fullgrid/DistributedFullGrid.hpp:617-633 | every grid point is stored by some rank, so what the ranks store determines the grid function |
| DistributedRun.RoundTripAll | src/hierarchization/DistributedHierarchization.hpp:1123-1260 | whatever the ranks store, distributed hierarchization and then dehierarchization (or the other way round) restores every cell of every rank, if and only if the ends of the poles match in every dimension with a periodic basis; without such a basis on a dimension with two boundary points that is always so |
| SerialKernels.HierarchizeBoundary | src/hierarchization/Hierarchization.hpp:278-319 | the strided kernel on a pole inside the grid array does what the distributed kernel with lmin 0 does, and touches only that pole |
| SerialKernels.DehierarchizeBoundary | src/hierarchization/Hierarchization.hpp:381-423 | its inverse |
| SerialInnerKernels.HierarchizeInner | src/hierarchization/Hierarchization.hpp:232-275 | the strided kernel without boundary points does the same to the pole with zero boundary values, although the coarsest level and the outer parents are left out |
| SerialInnerKernels.DehierarchizeInner | src/hierarchization/Hierarchization.hpp:322-378 | its inverse |
| SerialGrid.Transform | src/hierarchization/Hierarchization.hpp:54-221 | the loops over dimensions and poles transform every pole of the grid, with any mix of dimensions with and without boundary points: hierarchization leaves the surpluses that interpolate the old values, and dehierarchization the values that the old surpluses interpolate |
| SerialGrid.SerialSurplus | src/hierarchization/Hierarchization.hpp:54-137 | hierarchizing one dimension, an inner cell loses the mean of its two direct predecessors on its pole, with zeros for missing ends, and an end keeps its value |
| SerialGrid.SerialSurplusesInterpolate | src/hierarchization/Hierarchization.hpp:54-221 | numbers interpolate the grid function if and only if serial hierarchization computes them from it, and if and only if serial dehierarchization computes the grid function from them |
| SerialGrid.SerialIsDistributed | src/hierarchization/Hierarchization.hpp:54-221 | the result is that of the distributed transform with the hat basis and lmin 0 |
| SerialGrid.SerialRoundTrip | src/hierarchization/Hierarchization.hpp:54-221 | serial dehierarchization undoes serial hierarchization in any number of dimensions |
| Tensor.IndexBijection | src/fullgrid/Tensor.hpp:19-81 | linear and vector indices of a box are inverse to each other in both directions |
| Tensor.LastDifferenceDecides | src/fullgrid/Tensor.hpp:19-81 | linear indices follow the coordinates with the first dimension fastest: of two points of the box the one with the smaller coordinate in the last dimension where they differ comes first |
| Tensor.TensorIndexer.constructor | src/fullgrid/Tensor.hpp:19-29 | the offsets are the products of the earlier extents |
| Tensor.TensorIndexer.Size | src/fullgrid/Tensor.hpp:54-62 | the product of the extents, but 0 without dimensions |
| Tensor.TensorIndexer.SequentialIndex | src/fullgrid/Tensor.hpp:64-67 | a vector index in the box can be recovered from the result |
| Tensor.TensorIndexer.GetVectorIndex | src/fullgrid/Tensor.hpp:69-81 | the coordinates of a linear index in range lie in the box and lead back to it |
| DefaultDecomposition.CutIsRounded | src/fullgrid/DistributedFullGrid.hpp:34-61 | a cut is the exact quotient rounded up in a forward decomposition, and rounded down otherwise |
| DefaultDecomposition.PartsAreEven | src/fullgrid/DistributedFullGrid.hpp:34-61 | rounded up or down, every part gets the quotient of points and processes, or one point more |
| DefaultDecomposition.DefaultIsPole | src/fullgrid/DistributedFullGrid.hpp:34-61 | the cuts are ascending, start at 0 and leave no rank without points, so they are a decomposition of a pole |
| DefaultDecomposition.GetDefaultDecomposition | src/fullgrid/DistributedFullGrid.hpp:34-61 | an error if and only if some dimension has more processes than points |
| LevelLists.LevelProgression | src/fullgrid/DistributedFullGrid.hpp:898-904 | the points of a level are exactly an arithmetic progression with the computed stride |
| LevelLists.LocalStartIsFirst | src/fullgrid/DistributedFullGrid.hpp:906-942 | the computed local start is the first local point of the level |
| LevelLists.PointsInRange | src/fullgrid/DistributedFullGrid.hpp:944-949 | the computed count is the number of steps that stay within the part |
| LevelLists.Get1dIndicesLocal | src/fullgrid/DistributedFullGrid.hpp:966-985 | in ascending order exactly the local points whose trailing zero bits put them on the level; boundary points count as level 1; nothing for a level finer than the grid |
| LevelLists.LevelListsPartition | src/fullgrid/DistributedFullGrid.hpp:898-985 | every local point is in the list of exactly one level from 1 to lmax |
| Downsampling.DownsampleDecomposition | src/fullgrid/DistributedFullGrid.hpp:1619-1645 | every cut becomes the first coarser index that is not left of it |
| Downsampling.OwnershipIsKept | src/fullgrid/DistributedFullGrid.hpp:1619-1645 | a rank owns a point of the coarser grid if and only if it owns that point in the reference grid |
| Downsampling.LevelIsKept | src/fullgrid/DistributedFullGrid.hpp:651-683 | a point has the same level on both grids |
| Downsampling.ListsMatch | src/fullgrid/DistributedFullGrid.hpp:898-985 | the lists of a level on the coarser and the reference grid name the same points in the same order |
| Downsampling.SamePoints | src/fullgrid/DistributedFullGrid.hpp:898-985 | two grids downsampled from one reference list the same points of every common level in the same order, on every rank |
| SubspacePoints.GetFGPointsOfSubspaceRecursive | src/fullgrid/DistributedFullGrid.hpp:810-828 | the recursion lists all choices of one entry per dimension at their linear indices, the last dimension slowest |
| SubspacePoints.GetFGPointsOfSubspace | src/fullgrid/DistributedFullGrid.hpp:830-856 | exactly the local cells whose coordinates have the levels of the subspace, none if it is too fine for the grid |
| SubspacePoints.PointsAscend | src/fullgrid/DistributedFullGrid.hpp:810-856 | the list is ascending, so no cell is listed twice |
| SubspacePoints.CellIsInOneSubspace | src/fullgrid/DistributedFullGrid.hpp:810-856 | every local cell is in the list of exactly one level vector, whose entries lie between 1 and the levels of the grid |
| SharedPoints.SubspacesMatch | src/fullgrid/DistributedFullGrid.hpp:810-856 | on the same rank two component grids downsampled from one reference list equally many points of a common subspace, and their j-th entries are the same coordinates |
| LevelGeneration.SelectionsAreAll | src/utils/LevelSetUtils.cpp:34-51 | every selection of k out of d dimensions is listed, and no other |
| LevelGeneration.IsBelowAllHyperplanes | src/utils/LevelSetUtils.cpp:84-103 | true if and only if no sum over two or more dimensions exceeds that of lmin by more than n |
| LevelGeneration.CreateTruncatedHierarchicalLevels | src/utils/LevelSetUtils.cpp:115-141 | exactly the levels below all hyperplanes and lmax, each once, in lexicographic order, so that smaller levels come first |
| LevelSets.BoxCancels | src/combischeme/CombiMinMaxScheme.cpp:118-138 | the alternating sum over a box of side lengths 0 and 1 vanishes unless the box is a point |
| LevelSets.CountOfCoefficients | src/combischeme/CombiMinMaxScheme.cpp:118-138 | on a set that is closed downwards above lmin, Moebius coefficients count every subspace with the weight of the least level that contains it |
| LevelSets.CoefficientsOfCounts | src/combischeme/CombiMinMaxScheme.cpp:118-138 | and the coefficients can be recovered from the counts |
| LevelSets.CoefficientsAreUnique | src/combischeme/CombiMinMaxScheme.cpp:118-138 | so no other coefficients count the subspaces in this way |
| CombiScheme.OverwritingIsHarmless | src/combischeme/CombiMinMaxScheme.cpp:119-132 | zeroing earlier entries inside the loop changes no later coefficient |
| CombiScheme.ErasingKeepsPairs | src/combischeme/CombiMinMaxScheme.cpp:133-138 | the two separate erase passes drop the same positions |
| CombiScheme.CombiMinMaxScheme.ComputeCombiCoeffsAdaptive | src/combischeme/CombiMinMaxScheme.cpp:118-138 | what is left are the grids with a nonzero coefficient, each with its own coefficient |
| CombiScheme.EverySubspaceOnce | src/combischeme/CombiMinMaxScheme.cpp:118-138 | the kept grids count every subspace below some grid exactly once and every other one not at all |
| CombiScheme.FurthestCorner | src/combischeme/CombiMinMaxScheme.cpp:63-70 | the level sum exceeds that of lmin by the largest difference |
| CombiScheme.SchemeIsDownClosed | src/combischeme/CombiMinMaxScheme.cpp:72-96 | the selected levels are closed downwards above lmin |
| CombiScheme.CombiMinMaxScheme.CreateAdaptiveCombischeme | src/combischeme/CombiMinMaxScheme.cpp:72-96 | for all lmin <= lmax in any dimension: the grids lie in the scheme, have nonzero coefficients, and count every subspace of the scheme exactly once; it fails only if there are no levels |
| CombiScheme.SchemeHasLevel | src/combischeme/CombiMinMaxScheme.cpp:72-96 | the scheme has a grid at all if and only if the lags of the dimensions behind the furthest one add up to no more than the largest difference |
| CombiScheme.StretchedSchemeIsEmpty | src/combischeme/CombiMinMaxScheme.cpp:72-96 | for lmin (2,2,2) and lmax (4,2,2) there are levels but no grid, and no error is raised |
| CombiScheme.ZeroGridsCountNothing | src/combischeme/CombiMinMaxScheme.cpp:102-116 | as a list of grids, those appended with coefficient zero do not change how often a subspace is counted |
| CombiScheme.CombiMinMaxScheme.MakeFaultTolerant | src/combischeme/CombiMinMaxScheme.cpp:102-116 | appends the levels of exactly two further diagonals, each with coefficient zero, unless lmin equals lmax |
| SchemeFront.ExtraGridsAreNew | src/combischeme/CombiMinMaxScheme.cpp:102-116 | in the classical scheme none of them is there already; together the grids are the levels of dim + 2 diagonals |
| AdaptiveScheme.AdaptiveIsSimplex | src/combischeme/CombiMinMaxScheme.cpp:72-96 | the levels of the adaptive scheme are all those above lmin whose sum falls short of n by at least the sum of the lags |
| AdaptiveScheme.KeptGridsAre | src/combischeme/CombiMinMaxScheme.cpp:118-138 | its grids are the levels of the dim finest diagonals of that simplex |
| AdaptiveScheme.GridsRepeat | src/combischeme/CombiMinMaxScheme.cpp:102-116 | an extra grid repeats a grid of the adaptive scheme if and only if the sum of the lags is positive, at most effDim + 1 and at most the largest difference, and effDim is at most the largest difference |
| CombiScheme.CombiMinMaxScheme.CreateDownSet | src/combischeme/CombiMinMaxScheme.hpp:81-93 | in order, the levels below some grid with coefficient one |
| SchemeFront.FrontCoversScheme | src/combischeme/CombiMinMaxScheme.hpp:81-93 | looking only at the grids with coefficient one misses no subspace of the scheme |
| DownSets.GetDownSet | src/utils/LevelSetUtils.cpp:6-31 | all levels from 1 to l in every dimension, each once, in lexicographic order |
| ClassicalCoefficients.AdaptiveIsClassical | src/combischeme/CombiMinMaxScheme.cpp:118-148 | on a simplex of levels in any dimension the adaptive neighbour sum on diagonal p is (-1)^p times the binomial coefficient of dim - 1 over p, and zero from diagonal dim on |
| DummyDimensions.RemoveDummyDims | src/combischeme/CombiMinMaxScheme.cpp:11-23 | erasing the dimensions with equal levels one by one leaves the entries of the others, in order |
| DummyDimensions.InsertDummyDims | src/combischeme/CombiMinMaxScheme.cpp:44-50 | inserting the dummy dimensions one after the other into every level puts the i-th entry of lmax into the i-th dummy dimension and moves no other entry |
| ClassicalScheme.ClassicalMinMaxScheme.CreateClassicalCombischeme | src/combischeme/CombiMinMaxScheme.cpp:5-61 | levels, grids and coefficients are those of the classical scheme of the dimensions that are no dummies, embedded; for lmin equal to lmax one level and coefficient 1 but no grid |
| ClassicalScheme.ClassicalCounts | src/combischeme/CombiMinMaxScheme.cpp:5-61 | with any dummy dimensions every subspace below some level of the scheme is counted once and every other one never |
| ClassicalScheme.DummyLevelsAreRight | src/combischeme/CombiMinMaxScheme.cpp:44-50 | the levels of the scheme have the levels of the dummy dimensions if and only if the first entries of lmax happen to be these |
| ClassicalScheme.DummyGetsWrongLevel | src/combischeme/CombiMinMaxScheme.cpp:11-50 | for lmin (2,2,2) and lmax (4,4,2) every level has 4 instead of 2 in the third dimension |
| ClassicalScheme.EqualLevelsHaveNoGrid | src/combischeme/CombiMinMaxScheme.cpp:24-29 | the scheme has as many grids as coefficients if and only if lmin differs from lmax |
| ClassicalScheme.ClassicalIsAdaptive | src/combischeme/CombiMinMaxScheme.cpp:5-61 | without dummy dimensions grids and coefficients are those of the adaptive construction, so every subspace is counted once |
| ClassicalScheme.SchemesAgree | src/combischeme/CombiMinMaxScheme.cpp:5-148 | for lmax = lmin + c in every dimension both constructions return the same levels, grids and coefficients |
| LevelOdometer.NextIsNext | src/fault_tolerance/FTUtils.cpp:304-311 | counting up skips no level in lexicographic order |
| LevelOdometer.Mindex | src/fault_tolerance/FTUtils.cpp:287-317 | in order, exactly the levels up to the largest entry whose sum does not exceed that of levelMax |
| FaultDownset.SetEntireDownsetDict | src/fault_tolerance/FTUtils.cpp:119-167 | the keys are exactly the enumerated levels above the minimal one and below a grid with positive coefficient, with their received coefficient or zero |
| FaultDownset.DownsetIsClosed | src/fault_tolerance/FTUtils.cpp:119-167 | the keys are closed downwards above the minimal level |
| FaultRecovery.CreateAuxEntireDict | src/fault_tolerance/FTUtils.cpp:169-188 | every key gets its position in the order |
| FaultRecovery.GetInvM | src/fault_tolerance/FTUtils.cpp:83-117 | although only later entries are scanned and the test on the sum is always true, the matrix has the Moebius entry at every position |
| FaultRecovery.RecoveredCounts | src/fault_tolerance/FTUtils.cpp:83-117 | right inverse: the matrix times any weights w gives coefficients whose counts are w |
| FaultRecovery.RecoveredAreUnique | src/fault_tolerance/FTUtils.cpp:83-117 | left inverse: coefficients whose counts are w are the matrix times w |
| FaultRecovery.FaultsAreAvoided | src/fault_tolerance/LPOptimizationInterpolation.cpp:172-228 | every 0/1 solution of the constraint rows gives coefficient zero on every fault and counts every subspace once or not at all |
| LpOptimization.SumOfFinest | src/fault_tolerance/LPOptimizationInterpolation.cpp:26-29 | the level sum of the finest grids |
| LpOptimization.FilterFaults | src/fault_tolerance/FTUtils.cpp:206-227 | exactly the faults that are given grids on one of the two finest diagonals |
| LpOptimization.SetConstrMatrix | src/fault_tolerance/LPOptimizationInterpolation.cpp:172-193 | row i of the flat matrix, from index 1 on, is the inverse row of fault i |
| LpOptimization.MultiplyInvM | src/fault_tolerance/LPOptimizationInterpolation.cpp:216-228 | every coefficient is the product of its inverse row with the weights |
| LpOptimization.SelectCoeffDownset | src/fault_tolerance/FTUtils.cpp:403-419 | in order, the coefficients of the listed levels |
| LpOptimization.GetResults | src/fault_tolerance/LPOptimizationInterpolation.cpp:203-228 | although coefficients and grids are paired by position, every given grid gets its own coefficient |
| LpOptimization.LpOptInterp.InitOptiProb | src/fault_tolerance/LPOptimizationInterpolation.cpp:143-170 | every level of the down set gets the objective coefficient whose product with four to the power of its norm is one |
| LpOptimization.ObjectiveFalls | src/fault_tolerance/LPOptimizationInterpolation.cpp:155-165 | that product is one, and a level one diagonal finer has exactly a quarter of the coefficient |
| LpOptimization.OptimalIsMaximal | src/fault_tolerance/LPOptimizationInterpolation.cpp:172-201 | the optimal solutions of the rows of the constraint matrix are the solutions with the largest objective among all that avoid the faults |
| LpOptimization.OptimumExists | src/fault_tolerance/LPOptimizationInterpolation.cpp:172-201 | whatever grids on the two finest diagonals fail, there is an optimal solution |
| LpOptimization.LpOptInterp.Results | src/fault_tolerance/LPOptimizationInterpolation.cpp:203-275 | no failed grid is used, and the coefficients of the down set count every subspace once or not at all; from an optimal solution they count every level at least two diagonals below the finest exactly once |
| MaximalSolutions.MaximalKeepsCoarse | src/fault_tolerance/LPOptimizationInterpolation.cpp:160-169 | for any positive objective, an optimal solution chooses all levels at least two diagonals below the finest: a solution without one is improved by adding it |
| MaximalSolutions.CoarseIsSolution | src/fault_tolerance/LPOptimizationInterpolation.cpp:172-193 | whatever grids on the two finest diagonals fail, choosing exactly all coarser levels is a solution |
| MaximalSolutions.CoarseLevelsAreCounted | src/fault_tolerance/LPOptimizationInterpolation.cpp:203-228 | a solution that chooses all levels at least two diagonals below the finest counts each of them exactly once |
| MaximalSolutions.OthersAreMaximal | src/fault_tolerance/LPOptimizationInterpolation.cpp:160-201 | if with every fault everything above it fails, the optimal solution chooses exactly what has not failed, for any positive objective |
| RecoveredScheme.CoefficientIsBalance | src/fault_tolerance/LPOptimizationInterpolation.cpp:216-228 | a recovered coefficient is the number of upper neighbours at an even distance that the solution chooses, minus those at an odd distance |
| RecoveredScheme.LeavingOutIsHarmless | src/fault_tolerance/LPOptimizationInterpolation.cpp:216-275 | the output, which leaves out levels that were not given, counts like the whole solution if and only if for every level left out the solution chooses as many neighbours at even as at odd distances |
| RecoveredScheme.GivenSufficeAlways | src/fault_tolerance/LPOptimizationInterpolation.cpp:216-275 | whatever given levels on the two finest diagonals fail, and whichever optimal solution is found, the output counts like the solution, if and only if each level left out has adaptive coefficient zero and no neighbour on the two finest diagonals |
| FaultTolerantScheme.DownsetIsSimplex | src/fault_tolerance/FTUtils.cpp:119-167 | for the grids of a scheme, those of its finest diagonal with positive coefficients, the down set is the whole simplex of its levels |
| FaultTolerantScheme.SettledOnSimplex | src/fault_tolerance/LPOptimizationInterpolation.cpp:216-228 | on the levels of a scheme these are exactly the levels that lie at least dim diagonals below the finest of the scheme and at least dim + 2 below the first diagonal on which faults are looked for |
| FaultTolerantScheme.DiagonalsAreNeeded | src/fault_tolerance/LPOptimizationInterpolation.cpp:26-275 | on the levels of a scheme, over all faults and all their optimal solutions, the output always counts like the solution if and only if the finest dim diagonals are given, one more if faults are looked for one diagonal above the finest, and two more if on the finest itself |
| FaultTolerantScheme.ExtraGridsSuffice | src/combischeme/CombiMinMaxScheme.cpp:102-116 | for all lmin and lmax, the grids of the adaptive scheme and those that makeFaultTolerant adds always suffice if and only if no dimension lags, or those after the first lag by two or more together, or no diagonal is left out, or one is that is not needed or not there |
| FaultTolerantScheme.DiagonalIsMissed | src/combischeme/CombiMinMaxScheme.cpp:102-116 | for lmin (1,1) and lmax (5,6) they do not |
| FaultTolerantScheme.RecoveryIsComplete | src/combischeme/CombiMinMaxScheme.cpp:102-116 | if they suffice, then with any optimal solution the output counts like the solution, every level two diagonals below those where faults are looked for exactly once, and its coefficients add up to one if the minimal level is one of these |
| FaultTolerantScheme.CoefficientsAddUpToOne | src/manager/ProcessManager.hpp:622-633 | whatever fails, the recovered coefficients add up to one if and only if the minimal level lies below the two diagonals on which faults are looked for |
| FaultTolerantScheme.LostCoefficient | src/fault_tolerance/LPOptimizationInterpolation.cpp:274-275 | without them, for lmin (1,1), lmax (3,3) and fault (2,2), the coefficient of level (1,1) is lost and the output counts otherwise than the optimal solution |
| RecoveredScheme.CountsDetermineCoefficients | src/fault_tolerance/LPOptimizationInterpolation.cpp:216-228 | different coefficients count some subspace differently |
| SchemeParameters.CombiParameters.SetLevelsCoeffs | src/manager/CombiParameters.hpp:170-195 | a level with several tasks belongs to the last one |
| SchemeParameters.CreateParameters | examples/combi_example_faults/combi_example_faults.cpp:95-119 | task i stands for grid i with its coefficient, a level belongs to its last task, and the dictionary has exactly the grids as keys |
| SchemeParameters.AssignAgain | src/manager/CombiParameters.hpp:188-193 | storing coefficients for all levels of the dictionary leaves nothing of what was stored before |
| SchemeRecovery.RecomputeOptimumCoefficients | src/manager/ProcessManager.hpp:587-648 | with any solver that finds an optimum: without relevant faults nothing changes; otherwise relevant faults get coefficient zero, tasks and dictionary take the new coefficients, and for the grids of a fault tolerant scheme these are those of a best solution for exactly the relevant faults; if the grids suffice, every subspace is counted once or never, and once if it lies two diagonals below those where faults are looked for |
| SchemeRecovery.TasksCountAlike | src/manager/ProcessManager.hpp:610-635 | the tasks count like the recovered grids, whatever the coefficients, if and only if no two tasks have the same level |
| SchemeRecovery.FaultsAreSeen | src/fault_tolerance/LPOptimizationInterpolation.cpp:26-31 | some grid of the adaptive scheme lies on a diagonal on which faults are looked for if and only if it has a grid and the dimensions after the first lag by at most one together |
| SchemeRecovery.NoFaultIsSeen | src/fault_tolerance/LPOptimizationInterpolation.cpp:26-31 | for lmin (1,1,1) and lmax (5,4,4) there are grids but none of them does |
| RestoredScheme.RestoreCombischeme | src/manager/ProcessManager.cpp:366-380 | sets the coefficient of the task of every grid in turn to that of the fault tolerant adaptive scheme, and leaves the other tasks alone |
| RestoredScheme.TasksAreRestored | src/manager/ProcessManager.cpp:375-377 | so the last task of every level gets the coefficient of the scheme, and any other task keeps what it had |
| RecoveryCycle.DictionaryIsGiven | src/combischeme/CombiMinMaxScheme.cpp:102-116 | for all lmin and lmax, every grid in the dictionary of the scheme lies below one with a positive coefficient, which the optimisation needs, if and only if no extra diagonal is the finest of the scheme |
| RecoveryCycle.RestoringIsExact | src/manager/ProcessManager.cpp:366-380 | for all lmin and lmax, the tasks count every subspace of the scheme once after any recovery that the optimisation can make has been followed by a restoration, if and only if the extra diagonals do not meet those of the scheme below its finest or no grid lies where faults are looked for |
| RecoveryCycle.CreateScheme | examples/combi_example_faults/combi_example_faults.cpp:85-122 | after the scheme has been created, the process manager knows its grids, tasks and coefficients |
| RecoveryCycle.RunCombinations | examples/combi_example_faults/combi_example_faults.cpp:128-194 | over a whole run with any failures: no failed grid is used where faults are looked for, what is left is counted if the grids suffice and none has two tasks, without such faults the scheme is counted unless a recovery leaves traces, and the process manager knows the scheme again after every combination |
| RecoveryCycle.RunWithFaults | examples/combi_example_faults/combi_example_faults.cpp:85-194 | the same from lmin and lmax on: creating the scheme, running it and recovering from any failures is one program |
| RepeatedGrid.GridIsRepeated | src/manager/ProcessManager.cpp:366-380 | for lmin (1,1) and lmax (3,2) grid (1,1) is there twice; the recovery from fault (1,2) leaves coefficients 0, 0, 1, 0, and after the restoration subspace (1,1) is counted twice |
| RepeatedGrid.NothingIsStored | src/combischeme/CombiMinMaxScheme.cpp:102-116 | for lmin (1,1) and lmax (2,4) the dictionary holds zero for every grid, although faults of some are looked at |
| Chunks.GetChunkedSubspaces | src/combicom/CombiCom.hpp:204-231 | the chunks cover the list in order; each stays below the limit or is a single subspace, and ends only where the next subspace is empty or would reach the limit |
| Chunks.ChunksAreDisjoint | src/combicom/CombiCom.hpp:204-231 | no subspace is in two chunks |
| Chunks.OneChunk | src/combicom/CombiCom.hpp:292-295 | a list that fits below the limit is one chunk if and only if no subspace but the first is empty |
| Chunks.EmptySubspaceCuts | src/combicom/CombiCom.hpp:204-231 | subspaces of sizes 1, 0 and 1 are not one chunk although they fit below the limit |
| Chunks.ChunkIsNotCutAgain | src/combicom/CombiCom.hpp:292-295 | cutting a chunk again gives one chunk, as the reduction of an allocated chunk asserts |
| ChunkedReduce.ProcessGroups.CollectReduceDistribute | src/manager/SparseGridWorker.hpp:138-219 | the chunk-wise combination leaves in every task and every subspace the sum over all groups (over its own group for subspaces that are not shared) of the grids as they were before, although grids are overwritten between chunks |
| ChunkedReduce.ProcessGroups.ReduceThenDistribute | src/manager/SparseGridWorker.hpp:379-387 | reducing everything first and distributing once leaves the same values in every task and every subspace |
| ChunkedReduce.ReduceLocalAndGlobal | src/manager/SparseGridWorker.hpp:675-705 | after the reduction every group holds the total of the shared subspaces and its own sum of the others |
| ChunkedReduce.CombinedIsUnique | src/manager/SparseGridWorker.hpp:138-219 | that result is determined by the grids before, so both ways agree |
| ChunkedReduce.UntouchedAgrees | src/manager/SparseGridWorker.hpp:155-191 | a chunk that has not been processed still has its old values in every task |
| ChunkedReduce.GlobalSubspaceReduce | src/combicom/CombiCom.hpp:273-336 | every group receives the sum over all groups |
| Consistency.ExchangedTask | src/manager/SparseGridWorker.hpp:167-178 | exchanging one task changes every entry of a sum by the difference of coefficient times value, and without tasks the sum is zero |
| Consistency.TotalIsSumOfAll | src/combicom/CombiCom.hpp:273-336 | the total does not depend on how the tasks are distributed over the groups: it is the sum over all of them |
| Consistency.SharedSubspacesAgree | src/manager/SparseGridWorker.hpp:138-219 | after a combination every task of every group holds the total in every shared subspace that it contains |
| Consistency.AgreementIsKept | src/manager/SparseGridWorker.hpp:138-219 | the total of grids that agree on a subspace which their scheme counts once is what they hold |
| Consistency.CombinationKeepsAgreement | src/manager/SparseGridWorker.hpp:138-219 | so the combination leaves all tasks of all groups with the values on which they agreed, also where only one group has the subspace |
| Consistency.CombiningTwice | src/manager/SparseGridWorker.hpp:138-219 | a second combination right after the first changes no shared subspace that the scheme counts once |
| ThirdLevelDrain.DrainThenTold | src/manager/ProcessManager.hpp:323-346 | a system may read messages early or late: it ends in the same state |
| ThirdLevelDrain.DrainThenTaken | src/manager/ProcessManager.hpp:323-346 | and the broker may take messages early or late |
| ThirdLevelSafety.BrokerStepAdvances | third_level_manager/thirdLevelManager.cpp:126-176 | every message the broker takes is the one its role expects and moves the round on by one message |
| ThirdLevelSafety.StateIsWithin | third_level_manager/thirdLevelManager.cpp:104-176 | every state of every run is at a point of the round structure, whichever system signals first |
| ThirdLevelSafety.RunsAreBounded | third_level_manager/thirdLevelManager.cpp:104-123 | every run ends after a number of steps that the rounds alone determine |
| ThirdLevelSafety.NobodyFails | third_level_manager/thirdLevelManager.cpp:146-233 | no participant ever receives a message that its role does not expect, or data of another size |
| ThirdLevelSafety.NobodyWaitsForever | third_level_manager/thirdLevelManager.cpp:104-176 | a run that cannot go on has ended with both systems logged off and no message left, and both hold the same results, which ThirdLevelSafety.BothHoldResults spells out |
| ThirdLevelSafety.BothHoldResults | src/manager/ProcessGroupManager.cpp:365-394 | at the end both systems hold, for every block of every round and at every entry, the sum of what they had after a combination, the larger of their sizes after an exchange of sizes, and the smaller one after that of the extra sparse grid |
| ThirdLevelSafety.StatsOfRounds | third_level_manager/thirdLevelManager.cpp:146-233 | combinations are counted, and of every block in both directions eight bytes per number or four per size and one for the byte order are recorded |
| ThirdLevelSafety.RecordedIsForwarded | third_level_manager/thirdLevelManager.cpp:281-293 | at any time the recorded bytes are exactly the bytes forwarded |
| LoadBalancing.GroupWithLowestLoad | src/combischeme/CombiMinMaxScheme.hpp:534-542 | a group with the lowest load, the first of several |
| TaskDistribution.GetCombiDegreesOfFreedom | src/combischeme/CombiMinMaxScheme.hpp:185-200 | the product over the dimensions of the number of points, which GridCounts.LoadIsStored shows to be the number of cells |
| GridCounts.LoadIsStored | src/combischeme/CombiMinMaxScheme.hpp:185-200 | that number is the sum over all ranks of the cells that they store for the grid, for every decomposition and boundary kind |
| GridCounts.LoadsAreStored | src/combischeme/CombiMinMaxScheme.hpp:525-531 | and so is every load by which the grids are handed out |
| GridCounts.LevelsFillThePole | src/combischeme/CombiMinMaxScheme.hpp:185-200 | the points along a dimension are those of all its hierarchical levels together |
| TaskDistribution.SortedTasksAreDescending | src/combischeme/CombiMinMaxScheme.hpp:525-531 | every task is in the sorted list, and loads descend |
| TaskDistribution.GetLoadBalancedLevels | src/combischeme/CombiMinMaxScheme.hpp:507-551 | there is a greedy assignment of the list sorted by the number of cells, and a group gets exactly the tasks that it gives to the group, with their levels and coefficients; the loads are those of GridCounts.LoadsAreStored |
| TaskDistribution.EveryTaskOnce | src/combischeme/CombiMinMaxScheme.hpp:507-551 | every task is computed by exactly one group |
| TaskDistribution.NearlyOptimal | src/combischeme/CombiMinMaxScheme.hpp:507-551 | no group gets more than 4/3 - 1/(3m) times the highest load of any other distribution of the tasks |
| LoadBalancing.GreedyIsUnique | src/combischeme/CombiMinMaxScheme.hpp:533-549 | the assignment does not depend on the group that computes it |
| LoadBalancing.TaskHasOneGroup | src/combischeme/CombiMinMaxScheme.hpp:507-551 | so over all groups every task is taken exactly once |
| LoadBalancing.LoadBound | src/combischeme/CombiMinMaxScheme.hpp:533-549 | no load exceeds total / m + (1 - 1/m) * largest task |
| LoadBalancingBound.LargeTaskFits | src/combischeme/CombiMinMaxScheme.hpp:527-549 | if the tasks come in descending order, a task above a third of the highest load of some assignment never takes a group beyond that highest load |
| LoadBalancingBound.LargestFirstBound | src/combischeme/CombiMinMaxScheme.hpp:527-549 | with the tasks in descending order no load exceeds 4/3 - 1/(3m) times the highest load of any assignment |
| PartitionedCount.HighestIndexIsExact | src/combischeme/CombiMinMaxScheme.hpp:275-285 | from level 2 on the index is exactly the last one left of the cut |
| PartitionedCount.LevelOneIsExactUnlessCut | src/combischeme/CombiMinMaxScheme.hpp:265-274 | on level 1 it is exact if and only if the cut falls neither on the middle nor on the last point |
| PartitionedCount.ExtentsPerProcess | src/combischeme/CombiMinMaxScheme.hpp:313-347 | the extents add up to the points of the level; for an ascending decomposition they are not negative, and every process gets the difference between the computed indices of its two cuts |
| PartitionedCount.SharesMultiply | src/combischeme/CombiMinMaxScheme.hpp:348-361 | over all processes the products of the extents add up to the product of the sums |
| PartitionedCount.GetSGDegreesOfFreedomFromDownSet | src/combischeme/CombiMinMaxScheme.hpp:214-234 | the sum over the down set of the products of the numbers of points per level |
| GridCounts.LevelListLength | src/combischeme/CombiMinMaxScheme.hpp:224-229 | the number of points of a level is the length of the list of its points on an undivided pole with boundary points |
| GridCounts.SubspaceListLength | src/combischeme/CombiMinMaxScheme.hpp:217-231 | and the product over the dimensions is the length of the list of the cells of the subspace |
| DownSetCounts.FullGridIsCounted | src/combischeme/CombiMinMaxScheme.hpp:214-234 | the count of all levels up to a level, each listed once in any order, is the number of cells of the full grid of that level |
| PartitionedCount.GetPartitionedNumDOFSG | src/combischeme/CombiMinMaxScheme.hpp:289-365 | the counts of all processes add up to the unpartitioned count, for every down set, dimension and decomposition; for ascending decompositions each process is given the sum over the down set of the products of its own extents |
| PartitionedPoints.PartExtentIsExact | src/combischeme/CombiMinMaxScheme.hpp:275-347 | from level 2 on the extent of a process is the number of points of the level that it stores |
| PartitionedPoints.LevelOneExtentIsExact | src/combischeme/CombiMinMaxScheme.hpp:265-347 | on level 1 it is so if and only if both cuts of the process fall on the middle or the last point, or neither does |
| PartitionedPoints.ShareIsStored | src/combischeme/CombiMinMaxScheme.hpp:348-361 | where that holds in every dimension, a process is counted exactly the cells of the subspace that it stores |
| LocalUpwind.AddFlatDifferences | examples/distributed_third_level/TaskAdvection.hpp:113-157 | both loops add the difference to the neighbour in the flat array to every cell |
| LocalUpwind.CorrectLowestLayer | examples/distributed_third_level/TaskAdvection.hpp:158-217 | in the lowest layer the wrong neighbour is replaced by the received one, and nothing else changes |
| UpwindGrid.GradientIsUpwind | examples/distributed_third_level/TaskAdvection.hpp:108-218 | with the ghost layer every local difference is the periodic upwind difference of the whole grid |
| UpwindGrid.TimeStep | examples/distributed_third_level/TaskAdvection.hpp:102-225 | one step in the second buffer; the buffers change places |
| UpwindGrid.PartOfUpwind | examples/distributed_third_level/TaskAdvection.hpp:102-225 | the step of a rank is its part of the upwind step of the whole grid |
| Advection.LayerArrives | src/fullgrid/DistributedFullGrid.hpp:1296-1358 | the highest layer that the lower neighbour packs is the ghost layer of the receiver, value by value, also around the periodic boundary and with one rank only |
| Advection.Run | examples/distributed_third_level/TaskAdvection.hpp:90-229 | nsteps steps with the received layers |
| Advection.RankRunsAlong | examples/distributed_third_level/TaskAdvection.hpp:90-229 | the run of one rank with the layers that its neighbours send is its share of the run of all ranks |
| Advection.RunIsUpwind | examples/distributed_third_level/TaskAdvection.hpp:90-229 | every run of all ranks that exchange their own layers computes the steps of the stencil on the whole grid |
| UpwindFacts.MassIsConstant | examples/distributed_third_level/TaskAdvection.hpp:102-225 | a step keeps the total mass |
| UpwindFacts.LinearIsCarriedAlong | examples/distributed_third_level/TaskAdvection.hpp:102-225 | a linear function is carried along exactly: a step lowers it by dt times the sum of its slopes, its value at the point dt before in every dimension |
| UpwindFacts.WholeCellStep | examples/distributed_third_level/TaskAdvection.hpp:102-225 | if dt / h is one in one dimension and 1 / h is zero in the others, every value moves on by exactly one cell |
| UpwindFacts.PreviousIsBelow | examples/distributed_third_level/TaskAdvection.hpp:108-140 | the neighbour below has the next smaller coordinate in its dimension, or the largest one around the periodic boundary |
| UpwindFacts.CheckStepSize | examples/distributed_third_level/TaskAdvection.hpp:65-72 | accepts exactly the step sizes with dt times the sum of 1/h below 1 |
| UpwindFacts.BoundsAreKept | examples/distributed_third_level/TaskAdvection.hpp:102-225 | with a step size that is not negative and at most the limit, no value leaves the bounds in a step |
| StepSize.BoundsAreKeptExactly | examples/distributed_third_level/TaskAdvection.hpp:65-72 | with several points in every dimension, a step keeps all bounds if and only if dt is not negative and dt times the sum of 1/h is at most 1 |
| StepSize.NegativeStepLeavesBounds | examples/distributed_third_level/TaskAdvection.hpp:65-72 | the check accepts dt = -1, and with 1/h = 2 a value of 1 grows to 3 |
| RunFacts.RunKeepsMass | examples/distributed_third_level/TaskAdvection.hpp:90-229 | during every run the masses of the ranks add up to the same total |
| RunFacts.RunKeepsBounds | examples/distributed_third_level/TaskAdvection.hpp:65-225 | with a step size that is not negative and passes the check, no rank ever holds a value outside the initial bounds |

## Left out

- MPI datatypes, tags, requests and collectives, and OpenMP: replaced by their effect (a copied slice, a sum, a message in a channel).
- Floating-point rounding, Kahan summation and the rounding of quotients in `double`: values are real numbers, quotients are rounded exactly.
- Machine integer widths and overflow; the table of powers of two, which has only 29 initialisers, is replaced by exact powers.
- Shifts by negative amounts in the hat kernels, whose results are not used: some value takes their place.
- GridTransform.GridRoundTrip: leaves out non-periodic bases other than the hat on one-sided dimensions, where the code says that it assumes periodicity and asserts equal ends after the transform (src/hierarchization/DistributedHierarchization.hpp:933-947).
- GridTransform.AxisRoundTrip: leaves out the same case.
- GridMass.GridMassIsConserved: leaves out the same case.
- DistributedRun.TransformAll: leaves out the same case.
- DistributedRun.RoundTripAll: leaves out the same case.
- Serial grids with one-sided boundary: the code assumes 2^l + 1 points there while the grid stores 2^l.
- The sweep over dimension 0 of the serial code, which computes the start of a pole without a division, is the general sweep with stride 1.
- One source class is modelled by two, `CombiMinMaxScheme` for the adaptive and `ClassicalMinMaxScheme` for the classical construction.
- Dimensions with equal minimal and maximal level, which fault recovery ignores, and its list of grids to recompute.
- LpOptimization.LpOptInterp.Results: requires that every given grid lies below a grid with a positive coefficient, as otherwise the original reads rows that were never written.
- RecoveryCycle.RunWithFaults: requires what `RecoveryCycle.RunCombinations` does.
- RecoveryCycle.RunCombinations: requires that no extra diagonal is the finest of the scheme, as otherwise the optimisation cannot deal with it (`RecoveryCycle.DictionaryIsGiven`).
- The GLPK solver: any function that finds an assignment of 0 and 1 that satisfies the rows with the largest objective; row and column index arrays follow from the position.
- TaskDistribution.GetLoadBalancedLevels: sorts tasks of equal load in one particular order, where `std::sort` may choose another.
- Level 0 in the partitioned count, for which the code throws.
- PartitionedCount.GetPartitionedNumDOFSG: what a single process is given is stated for ascending decompositions only.
- In the broker protocol: file-based and any-data exchanges, bounded channels, timeouts and lost connections; the polling order of the broker is arbitrary.
- Extra sparse grids, collecting on a single rank, and asynchronous variants of the combination.
- Storage of the distributed sparse grid: subspaces are a map from subspace to values, with the sizes as parameters.
- Coordinates of grid points, interpolation between them, norms, and the initial values of the solver.
- SchemeRecovery.RecomputeOptimumCoefficients: gets the levels of the faults instead of their task numbers; the lists of tasks to recompute and to redistribute are left out.
- UpwindFacts.BoundsAreKept: requires dt to be at least 0, without which the bounds are not kept (`StepSize.BoundsAreKeptExactly`).
- RunFacts.RunKeepsBounds: requires dt to be at least 0, without which the bounds are not kept (`StepSize.BoundsAreKeptExactly`).
- Task scheduling by process managers, rescheduling, fault simulation, parameter files, statistics, input and output.
