# Flopscope: verified models

Flopscope bills array operations by FLOPs and trusts symmetry tags to bill less. This project models
the parts of it whose correctness is an argument rather than a formula, and proves that argument in
Dafny 4.11:

* **Orbit canonicalisation.** A permutation group on tensor axes is known only by its generators.
  Min-label propagation with pointer jumping builds the table of orbit minima; the invariance test,
  the canonical copy and its fast path make an accepted buffer exactly constant on every orbit.
  `FiniteSets`, `Permutations`, `Orbits`, `Propagation`, `RowMajor`, `AxisActions`, `SymmetryGroups`,
  `CanonicalMap`, `Cells` and `Canonicalization` carry it, in that order; `LinearRounds` shows how many
  rounds it can take.
* **Unique elements.** A tensor is billed for its unique elements: the group is listed from its
  generators (`GroupElements`), each element fixes one cell per choice of entries for its cycles
  (`Cycles`), and the average is the number of representatives the orbit map leaves (`UniqueElements`).
* **The orbit-map cache.** A byte-bounded LRU with an eviction loop and a skip rule for oversized
  maps, refined to the recency stack of the request history (`RecencyStack`, `OrbitMapCache`), and what
  a larger budget is worth (`TwoBudgets`).
* **Exact cost arithmetic.** Multiset coefficients and the symmetric-contraction cost models
  (`Combinatorics`, `ContractionCosts`), their tie to the orbit map (`Representatives`, `BlockTuples`,
  `BlockRepresentatives`), triangle and diagonal counts (`MatrixCells`), and padding over a growing
  buffer (`Padding`).
* **Walks and segmentation.** The dtype scan of cyclic, shared object graphs (`DtypeWalk`), directive
  segmentation of documentation lines (`Directives`), and alias chains (`Aliases`).

Sequential code of the library that updates state is modelled as methods and classes proved against
specification functions; what the library promises is then proved of those functions.

How the group is described: `Action(axes, degree, forms)` holds the array forms of the generators, and
`ValidAction` holds what group validation has established before a buffer reaches this code (axes
distinct and in range, forms permutations, equal extents along every moved axis). A group element is a
word in the generators and their inverses (`SymmetryGroups.InGroup`), so statements about the whole
group are statements about every word.

Where the code and its documentation differ, or a natural claim is false:

* The docstring of the map builder speaks of log-many rounds. The bound is linear, at most as many
  rounds as the largest orbit has members (`Propagation.ConvergesWithinLargestOrbit`), and it is
  attained: turning m axes of extent two in one direction takes exactly m - 1 rounds and one more to
  notice (`LinearRounds.LinearBoundIsAttained`).
* The Psi model is not always below the naive count: for an outer product of two vectors of length two
  or more it is above it, and for n = 0 the floor of 1 lifts it above 0. `ContractionCosts.PsiBelowNaiveIff`
  is the exact condition.
* `is_exactly_invariant` answers False on a buffer that the whole group fixes bit for bit if it holds a
  NaN and there is a non-identity generator; `Canonicalization.AnswerIsExact` is the exact condition and
  `Canonicalization.FixedNaNIsRejected` such a buffer.
* Alias resolution is not idempotent on cycles of two or more names; `Aliases.IdempotentIffSettles` is
  the exact condition, `Aliases.SecondResolutionOnCycle` what happens on any cycle, and
  `Aliases.TwoCycleIsNotIdempotent` the smallest failing map.
* A larger cache need not contain a smaller one: maps that fit only the larger budget can push out what
  the smaller cache keeps. It does exactly when the smaller contents, with the mid-sized maps used since
  their oldest entry, fit the larger budget (`TwoBudgets.InclusionIff`);
  `TwoBudgets.MidSizedMapBreaksInclusion` is a history where they do not.
* The dtype scan stops looking at its nesting cap and never goes through a container twice, so a leaf it
  should refuse can pass in two ways: for every cap there is a value with one nested too deep
  (`DtypeWalk.DeepLeafPasses`), and for every cap of three or more a value with one inside three lists, of
  which one is first met at the last level; turning the outer list round makes it refuse
  (`DtypeWalk.OrderOfMembersDecides`). Where no container that holds containers is met both at the last
  level and nearer, the scan passes exactly when nothing to raise is met above the cap, and its verdict is
  right exactly when the value is clean or there is such a thing (`DtypeWalk.VerdictIsRightIff`). On every
  other value it raises between what is sure to be met and what can be (`DtypeWalk.WalkRaisesBetween`).

## Model

| member | source | states |
|---|---|---|
| Permutations.MonotoneLabelsAreConstant | src/flopscope/_canonical_symmetry.py:97-104 | labels that never decrease along a permutation step are constant along it: the reason a stable table needs no inverse steps |
| Permutations.ForwardClosedIsBackwardClosed | src/flopscope/_canonical_symmetry.py:84-89 | a set a generator maps into itself is closed under the inverse generator too |
| Orbits.ForwardStepsReachOrbit | src/flopscope/_canonical_symmetry.py:97-104 | forward generator steps alone reach the whole orbit under the generated group, within orbit size minus one steps |
| Orbits.StepInvariantFollowsWords | src/flopscope/_canonical_symmetry.py:195-198 | data fixed by every generator is fixed by every word in generators and inverses |
| Propagation.StableMeansMinimal | src/flopscope/_canonical_symmetry.py:97-104 | a round (min step per generator, then pointer jump) that changes nothing means every label is its orbit minimum |
| Propagation.RoundsCover | src/flopscope/_canonical_symmetry.py:97-104 | after r rounds each label is at most every position reachable in r forward generator steps |
| Propagation.ConvergesWithinLargestOrbit | src/flopscope/_canonical_symmetry.py:97-104 | the labels are final after (largest orbit size - 1) rounds |
| Propagation.SameLabelIffSameOrbit | src/flopscope/_canonical_symmetry.py:81-108 | two positions carry the same label exactly when they share an orbit |
| Propagation.LabelsAreRepresentatives | src/flopscope/_canonical_symmetry.py:81-108 | a label is at most its position, in its orbit, labelled by itself, and below every other orbit member |
| RowMajor.EncodeIsMonotone | src/flopscope/_canonical_symmetry.py:249-253 | C-order encoding is an order isomorphism: smallest flat index is lexicographically smallest tensor index |
| RowMajor.DecodeEncode | src/flopscope/_canonical_symmetry.py:71 | encoding a tensor index lands inside the buffer and decodes back to it |
| RowMajor.EncodeDecode | src/flopscope/_canonical_symmetry.py:71 | decoding a flat index and encoding it again gives it back |
| RowMajor.LastAxisIsContiguous | src/flopscope/_canonical_symmetry.py:71 | stepping along the last axis steps to the next position of the buffer |
| AxisActions.FlatImageIndex | src/flopscope/_canonical_symmetry.py:73-77 | the image of a position carries on axis perm[j] the index its source has on axis j: `np.transpose` as decode, permute, encode |
| AxisActions.FlatImageIsPermutation | src/flopscope/_canonical_symmetry.py:68-78 | each generator's flat image is a bijection on the flat indices |
| AxisActions.FlatImageOfComposition | src/flopscope/_canonical_symmetry.py:68-78 | flat images compose as the axis permutations do |
| CanonicalMap.FillAxisPermutation | src/flopscope/_canonical_symmetry.py:74-76 | the loop overwriting moved axes yields the axis permutation of the form, which keeps the shape |
| CanonicalMap.GeneratorImages | src/flopscope/_canonical_symmetry.py:68-78 | the images returned are the flat images of all generators, in order |
| SymmetryGroups.WordFormActs | src/flopscope/_canonical_symmetry.py:195-198 | the flat image of any group element, as an array form, is the composition of generator images and inverses that spells it |
| SymmetryGroups.RelatedIffSameOrbit | src/flopscope/_canonical_symmetry.py:81-82 | orbits of flat indices under the images are orbits of the group of axis permutations |
| SymmetryGroups.FingerprintKeepsGroup | src/flopscope/_canonical_symmetry.py:52-65 | dropping identity generators from the cache key does not change the generated group |
| CanonicalMap.PropagateOnce | src/flopscope/_canonical_symmetry.py:99-102 | one pass is a min step per generator in order followed by one pointer jump |
| CanonicalMap.BuildCanonicalMap | src/flopscope/_canonical_symmetry.py:81-108 | for every shape and generator list the loop terminates with the table of orbit minima, in at most as many passes as the largest orbit has members; the labels before the last pass are already that table |
| LinearRounds.LinearBoundIsAttained | src/flopscope/_canonical_symmetry.py:81-108 | for every m >= 2 there is an action whose orbits have at most m positions and whose labels are final after r rounds exactly when r >= m - 1 |
| LinearRounds.RoundsClimbSlowly | src/flopscope/_canonical_symmetry.py:97-104 | on a cycle whose positions increase until it closes, r rounds tell only the last r positions of the least one |
| CanonicalMap.OrbitMapIsCanonical | src/flopscope/_canonical_symmetry.py:81-108 | map[i] <= i, map[map[i]] == map[i], map[i] is related to i by a group element and least such, and map[i] == map[j] exactly when some group element relates i and j |
| CanonicalMap.RepresentativeIsLexLeast | src/flopscope/_canonical_symmetry.py:249-253 | the representative's tensor index is lexicographically least in its orbit |
| Canonicalization.IsExactlyInvariant | src/flopscope/_canonical_symmetry.py:192-230 | the loop with its early exits answers whether every non-identity generator passes the equality and sign tests |
| Canonicalization.AnswerIsExact | src/flopscope/_canonical_symmetry.py:192-230 | the answer is True exactly when every element of the generated group fixes the buffer bit for bit and the buffer is NaN-free or there is no generator to try |
| Canonicalization.FixedNaNIsRejected | src/flopscope/_canonical_symmetry.py:192-230 | a one-cell array of shape [1, 1] that is NaN, in either part if complex, is fixed by the exchange of its axes and rejected |
| Canonicalization.CanonicalCopy | src/flopscope/_canonical_symmetry.py:249-262 | whatever the cache holds, the result is the gather through the orbit map of the group; the cache is asked once, with the group's fingerprint, unless the array is empty |
| Canonicalization.Canonicalize | src/flopscope/_canonical_symmetry.py:233-246 | bit for bit the canonical copy on every array, fixed by the whole group; the skipped path returns the input, and the cache is asked exactly when that path is not taken on a non-empty array |
| Canonicalization.FastPathIsTheCopy | src/flopscope/_canonical_symmetry.py:233-246 | the early return fires only when gathering representatives would change no bit |
| Canonicalization.MapForIsCanonical | src/flopscope/_canonical_symmetry.py:181-189 | the map looked up by fingerprint identifies exactly what the full group identifies |
| Canonicalization.IdentifiedIffMoved | src/flopscope/_canonical_symmetry.py:46-49 | two positions are identified exactly when some element moves one index to the other, along the axes the group lists, or the leading ones when it lists none |
| Canonicalization.IdentifiedKeepOtherAxes | src/flopscope/_canonical_symmetry.py:46-49 | identified indices agree on every axis the group does not list, or on all but the leading ones |
| Canonicalization.GeneratorIdentifies | src/flopscope/_canonical_symmetry.py:211-216 | each generator identifies a position with the one that carries, on the axis of position form[p], its entry on the axis of position p, and its entries elsewhere |
| Canonicalization.FixedIffConstantOnOrbits | src/flopscope/_canonical_symmetry.py:192-230 | the group fixes a buffer exactly when identified positions hold the same bits |
| Canonicalization.FixedIffOwnCopy | src/flopscope/_canonical_symmetry.py:249-262 | a buffer is its own canonical copy exactly when every group element fixes it |
| Canonicalization.CopyIsFixed | src/flopscope/_canonical_symmetry.py:249-262 | every group element fixes a canonical copy bit for bit |
| Canonicalization.CopyOnOrbits | src/flopscope/_canonical_symmetry.py:249-262 | the copy is constant on orbits, unchanged at representatives, and holds only values of representatives |
| Canonicalization.RepresentativeIffLeast | src/flopscope/_canonical_symmetry.py:249-253 | the positions whose values the copy keeps are the least ones of what the group identifies |
| Canonicalization.CopyIsIdempotent | src/flopscope/_canonical_symmetry.py:249-262 | copying a canonical copy changes nothing |
| Canonicalization.OnlyRepresentativesSurvive | src/flopscope/_canonical_symmetry.py:14-17 | two buffers have the same copy exactly when they agree on representatives: discarded entries cannot influence it |
| Canonicalization.CopyPassesTest | src/flopscope/_canonical_symmetry.py:192-230 | the test accepts a canonical copy exactly when no representative is NaN or there is no generator to try |
| OrbitMapCache.Cache.Get | src/flopscope/_canonical_symmetry.py:138-158 | returns the map a fresh build would, appends the request to the history, keeps the key if its map fits the budget and otherwise leaves the contents untouched |
| OrbitMapCache.Cache.Insert | src/flopscope/_canonical_symmetry.py:149-157 | after the eviction loop the order is the longest fitting suffix, the new entry is still there, and the byte count is the sum of retained sizes |
| OrbitMapCache.Cache.EvictOldest | src/flopscope/_canonical_symmetry.py:155-157 | dropping the least recent entry takes its key, its map and its bytes away and nothing else |
| OrbitMapCache.Cache.Clear | src/flopscope/_canonical_symmetry.py:165-169 | empties the contents and restarts the history and counters |
| OrbitMapCache.Cache.Info | src/flopscope/_canonical_symmetry.py:160-163 | hits, misses and size reported are those the request history determines |
| RecencyStack.ResidentAfterHit | src/flopscope/_canonical_symmetry.py:140-144 | a hit moves its key to the recent end of what should be resident and changes nothing else |
| RecencyStack.ResidentAfterMiss | src/flopscope/_canonical_symmetry.py:146-157 | a miss appends its key and drops as few of the least recent keys as the budget forces |
| RecencyStack.ResidentAfterOversized | src/flopscope/_canonical_symmetry.py:148-151 | a map larger than the whole budget changes nothing that should be resident |
| RecencyStack.LongestSuffixIsLongest | src/flopscope/_canonical_symmetry.py:155-157 | no longer suffix of the recency stack fits the budget |
| RecencyStack.RecencyIsByLastRequest | src/flopscope/_canonical_symmetry.py:140-153 | of two requested keys, the one later in the stack was requested after the last request of the other |
| OrbitMapCache.ResidentBytesFit | src/flopscope/_canonical_symmetry.py:122-126 | retained bytes never exceed the budget |
| TwoBudgets.InclusionIff | src/flopscope/_canonical_symmetry.py:138-158 | for every history and pair of budgets the larger contents include the smaller ones exactly when the latter are empty or fit the larger budget together with the mid-sized maps used since their oldest entry |
| TwoBudgets.KeptIffRecentFits | src/flopscope/_canonical_symmetry.py:155-157 | a key is resident exactly when it and everything used since fit the budget |
| TwoBudgets.LargerBudgetContainsSmaller | src/flopscope/_canonical_symmetry.py:138-158 | when every requested map fits the smaller budget, the smaller contents are the recent end of the larger ones |
| TwoBudgets.RoomMeansMoreHits | src/flopscope/_canonical_symmetry.py:138-158 | a larger cache never hits less often over a history whose mid-sized maps always leave that room |
| TwoBudgets.LargerBudgetHitsMore | src/flopscope/_canonical_symmetry.py:138-158 | ... in particular when every requested map fits the smaller budget |
| TwoBudgets.MidSizedMapBreaksInclusion | src/flopscope/_canonical_symmetry.py:148-151 | a history on which a key is resident under a small budget and not under a large one |
| Representatives.RepresentativeIffNonDecreasing | src/flopscope/_canonical_symmetry.py:81-108 | with every exchange of neighbouring axes in the group, the fixed points of the map are the non-decreasing tensor indices |
| Representatives.RepresentativeCount | scripts/compare_costs.py:15-19 | ... and there are C(n+k-1, k) of them |
| Representatives.SymmetricRepresentativeCount | src/flopscope/_perm_group.py:524-538 | the adjacent transpositions the library generates the symmetric group from leave ((n, k)) representatives |
| BlockRepresentatives.RepresentativeIffSortedInBlocks | src/flopscope/_perm_group.py:566-625 | for any list of disjoint blocks, in any order of axes and beside unmoved ones, the fixed points of the map are the indices that do not decrease along the axes of each block |
| BlockRepresentatives.OrbitKeepsEntries | src/flopscope/_perm_group.py:566-625 | related indices hold the same entries, as often, in each block, and agree outside |
| BlockRepresentatives.AnyTwoExchange | src/flopscope/_perm_group.py:524-538 | the neighbour exchanges generated for a block reach the exchange of any two of its axes |
| BlockRepresentatives.YoungRepresentativeCount | src/flopscope/_perm_group.py:566-625 | ... and their number is the product of ((extent, size)) over the blocks times the extents of the unmoved axes |
| BlockRepresentatives.TwoBlocksCount | scripts/compare_costs.py:116-119 | two blocks side by side leave ((n, s)) * ((n, t)) representatives |
| BlockTuples.SortedIffAllHold | src/flopscope/_perm_group.py:566-575 | an index in bounds is sorted in the blocks exactly when each block, and each axis outside, holds a non-decreasing tuple of its own extent |
| BlockRepresentatives.FCodeChargesRepresentatives | scripts/compare_costs.py:92-131 | on every input and option the charge is the op factor once per representative the orbit map leaves in the output and in the inner indices |
| GroupElements.Dimino | src/flopscope/_perm_group.py:752-797 | returns every element of the generated group exactly once, at most one per generator more than the budget, or gives up on a group with more elements than the budget |
| GroupElements.OverBudgetIff | src/flopscope/_perm_group.py:782-788 | a group is over the budget exactly when its full listing is longer than the budget |
| GroupElements.ClosedHoldsWords | src/flopscope/_perm_group.py:774-789 | a finite set that holds the identity and its products with the generators holds every word in generators and inverses |
| GroupElements.WordFormOfConcat | src/flopscope/_perm_group.py:114-117 | the form of two words one after the other is the product of their forms |
| Cycles.FullCyclicForm | src/flopscope/_perm_group.py:154-167 | the nested loops return cycles of the permutation in which every position stands exactly once |
| Cycles.FixedCellCount | src/flopscope/_perm_group.py:510-515 | an axis permutation fixes as many cells as the product over its cycles of the extent at the first position |
| UniqueElements.RowsAreColumns | src/flopscope/_perm_group.py:510-515 | pairs of an element and a cell it fixes are as many counted by elements as by cells |
| UniqueElements.StabilisersAreTransporters | src/flopscope/_perm_group.py:510-522 | as many elements fix a position as carry its representative to it |
| UniqueElements.FixedCellsAddUp | src/flopscope/_perm_group.py:510-522 | over all elements of any valid group, the fixed cells add up to the number of elements times the number of representatives of the orbit map |
| UniqueElements.TensorFixedCells | src/flopscope/_symmetry_utils.py:155-176 | an element fixes its cells on the group's own axes once for every entry of the other axes |
| UniqueElements.BurnsideUniqueCount | src/flopscope/_perm_group.py:501-522 | the division has remainder 0 and yields the number of representatives of the group on its own axes |
| UniqueElements.UniqueElementsForShape | src/flopscope/_symmetry_utils.py:105-176 | the count billed is the number of representatives the orbit map leaves in the whole tensor, or every cell for a group over the budget, and never less than the representatives |
| Combinatorics.CombIsFactorialQuotient | scripts/compare_costs.py:12 | the binomial coefficient used is the factorial quotient |
| Combinatorics.MultisetSubmultiplicative | scripts/compare_costs.py:41-45 | ((n, s+t)) <= ((n, s)) * ((n, t)): the symmetrisation term is never negative |
| Combinatorics.MultisetAtMostPower | scripts/compare_costs.py:112-128 | a multiset coefficient never exceeds the dense count it is divided into |
| ContractionCosts.OutputReductionIsExact | scripts/compare_costs.py:111-122 | the first floor division has remainder 0 and yields op factor times inner count times unique outputs |
| ContractionCosts.InnerReductionIsExact | scripts/compare_costs.py:124-129 | the second floor division has remainder 0 |
| ContractionCosts.FCodeCountsUniques | scripts/compare_costs.py:92-131 | the library's count is the op factor once per unique output and unique inner index, on every input |
| ContractionCosts.OptionsNeverRaise | scripts/compare_costs.py:92-131 | the same-object and inner-symmetry options never raise the count |
| ContractionCosts.PsiClosedForm | scripts/compare_costs.py:29-46 | for n >= 1 neither cost term is negative and the floor of 1 never applies |
| ContractionCosts.PsiBelowNaiveIff | scripts/compare_costs.py:22-46 | Psi is at most the naive count exactly when n >= 1 or there are no indices, outside the outer product of two vectors of length >= 2 |
| ContractionCosts.CodeAgainstPsi | scripts/compare_costs.py:22-131 | for n >= 1 the library's count is Psi plus ((n, s+t)) where there is an inner sum and it uses the inner symmetry, and ((n, s)) * ((n, t)) where there is none |
| ContractionCosts.CodeAgainstNaive | scripts/compare_costs.py:22-131 | for n >= 1 and without options the library's count is to the naive one as unique outputs to all outputs |
| ContractionCosts.OptionsScaleTheCount | scripts/compare_costs.py:110-129 | for n >= 1 one shared operand scales the count by ((n, s+t)) over ((n, s)) * ((n, t)), and the inner symmetry by ((n, v)) over n to the v |
| MatrixCells.TriangleKept | src/flopscope/_array_ops.py:1492-1509 | the accumulated count is the number of cells (i, j) on the kept side of the diagonal, for all m, n, k |
| MatrixCells.TrianglesPartition | src/flopscope/_array_ops.py:1492-1509 | upper at k and lower at k-1 share out the whole matrix |
| MatrixCells.TransposeExchangesTriangles | src/flopscope/_array_ops.py:1492-1509 | transposing exchanges the triangles and negates the offset |
| MatrixCells.TriangleStepIsDiagonal | src/flopscope/_array_ops.py:124-133 | consecutive upper triangles differ by the diagonal `eye` writes |
| MatrixCells.EyeLengthCountsDiagonal | src/flopscope/_array_ops.py:124-133 | the length is the number of in-bounds cells on diagonal k |
| MatrixCells.FillDiagonalCountsCells | src/flopscope/_array_ops.py:2707-2723 | the 2-D charge is the number of cells of the plain or wrapped diagonal |
| MatrixCells.FillDiagonalOfCube | src/flopscope/_array_ops.py:2707-2723 | for three or more equal axes the charge is the number of cells whose entries are all the same |
| MatrixCells.FillDiagonalOfLine | src/flopscope/_array_ops.py:2715-2716 | with one axis every cell is charged, with none nothing |
| MatrixCells.WrappedIffFlatMultiple | src/flopscope/_array_ops.py:2707-2723 | a cell is on the wrapped diagonal exactly when its flat position is a multiple of n + 1 |
| MatrixCells.FlatPositionCell | src/flopscope/_array_ops.py:2707-2723 | the t-th written cell is (t + t div n, t mod n) |
| Padding.PadPairsIsBroadcast | src/flopscope/_array_ops.py:1354-1378 | the scalar and pair fast paths accept, reject and normalise exactly as broadcasting to (ndim, 2) does |
| Padding.PadPairsAre | src/flopscope/_array_ops.py:1354-1378 | an array of one pair per axis gives those pairs in order, a column doubles each entry, a single number or pair serves every axis, and every other shape is refused |
| Padding.PadStatCost | src/flopscope/_array_ops.py:1421-1453 | the loop charges each axis against extents padded before it and original after it, and ends with the padded extents |
| Padding.AxisCostCountsReads | src/flopscope/_array_ops.py:1430-1449 | each axis is charged one unit per cell its leading and trailing reductions read, shared when both cover the axis |
| Padding.ReadsAre | src/flopscope/_array_ops.py:1430-1449 | the cells read on an axis are those inside the window on it, inside the padded extents before it and the original extents after it |
| Padding.MeanCountsOutputs | src/flopscope/_array_ops.py:1450-1452 | `mean` adds one division per cell produced: one line of cells when both sides read the whole axis, else two |
| Padding.StatCostCountsReads | src/flopscope/_array_ops.py:1421-1453 | the statistics charge is the number of cells the axis-by-axis in-place procedure reads |
| Padding.BorderIsDifference | src/flopscope/_array_ops.py:1422-1429 | cross sections times pad widths telescope to output size minus input size |
| Padding.SecondPassIsTheBorder | src/flopscope/_array_ops.py:1403-1406 | odd reflection and ramps are charged every output cell plus the border again |
| Padding.DefaultStatisticBounds | src/flopscope/_array_ops.py:1407-1454 | maximum, minimum and median with default lengths cost between out + d * in and (d + 1) * out |
| Padding.PadFlopCost | src/flopscope/_array_ops.py:1381-1455 | the method computes, for every mode, error and empty input, the charge that the next rows state in cells |
| Padding.ChargeByMode | src/flopscope/_array_ops.py:1381-1423 | with the normalised widths: the free, even and unknown modes are charged the output cells, a ramp and an odd reflection those plus output minus input, a statistic over an empty input the output cells, and never less than 1 |
| Padding.StatisticCharge | src/flopscope/_array_ops.py:1407-1454 | over a non-empty input, with lengths given or not, the output cells plus the cells each reduction reads and, for `mean`, the cells it produces |
| Padding.RefusedIff | src/flopscope/_array_ops.py:1377-1425 | the call is refused exactly when the widths do not normalise, or the lengths do not and a statistic needs them |
| DtypeWalk.RefuseNonNumericDtypeTree | src/flopscope/_array_ops.py:3480-3534 | for every graph and cap: an exception means a cycle or a refusable leaf is met above the cap, and one that is sure to be met is raised; on level values it passes exactly when neither is met above the cap, on values that do not nest to the cap exactly when neither is reachable; no container is gone through twice |
| DtypeWalk.Scan.Visit | src/flopscope/_array_ops.py:3504-3534 | on every exit the active set and the containers around the value are as before, and outcome and finished containers are those of the recursive walk |
| DtypeWalk.WalkRaisesBetween | src/flopscope/_array_ops.py:3504-3534 | on every value and cap, what raises is met above the cap, and a cycle or leaf all of whose outer containers are met at the last level only there, if at all, does raise |
| DtypeWalk.FirstIsRaised | src/flopscope/_array_ops.py:3521-3532 | what is raised is the first in member order: at every level the members before the one followed are numeric, too deep, or were gone through without raising |
| DtypeWalk.WalkCertifies | src/flopscope/_array_ops.py:3504-3534 | a walk that passes leaves a list of containers, each gone through on some chain with every member numeric, too deep, or earlier in the list |
| DtypeWalk.ChainIsFinished | src/flopscope/_array_ops.py:3521-3532 | such a list holds every container of a chain whose outer containers are not met at the last level, inner ones first |
| DtypeWalk.PassesIffNothingWithin | src/flopscope/_array_ops.py:3504-3534 | on level values the walk passes exactly when no cycle and no refusable leaf is met above the cap |
| DtypeWalk.VerdictIsRightIff | src/flopscope/_array_ops.py:3480-3534 | ... so its verdict on the whole value is right exactly when that is clean or something to raise is met above the cap |
| DtypeWalk.ShallowPassesIffClean | src/flopscope/_array_ops.py:3480-3534 | a value that does not nest to the cap passes exactly when no reachable container contains itself and no reachable leaf is to be refused |
| DtypeWalk.ShallowIsLevel | src/flopscope/_array_ops.py:3504-3509 | values that do not nest to the cap are level |
| DtypeWalk.SureMeansWithin | src/flopscope/_array_ops.py:3504-3509 | what is sure to be met is met above the cap |
| DtypeWalk.FewContainersAreShallow | src/flopscope/_array_ops.py:3504-3509 | fewer containers than the cap are never nested as deep as it |
| DtypeWalk.DeepLeafPasses | src/flopscope/_array_ops.py:3504-3509 | for every cap, a refusable leaf nested one level deeper passes |
| DtypeWalk.OrderOfMembersDecides | src/flopscope/_array_ops.py:3504-3532 | for every cap of three or more, a value with a refusable leaf inside three lists passes, and is refused with the members of the outer list the other way round |
| DtypeWalk.SettleOne | src/flopscope/_array_ops.py:3521-3532 | a container all of whose members are settled lies on no cycle |
| DtypeWalk.SettledRootIsClean | src/flopscope/_array_ops.py:3480-3534 | from a settled root neither a cycle nor a refusable leaf is reachable |
| Directives.ParseRichDocBlocks | scripts/generate_api_docs.py:2285-2344 | the loop with its buffer produces, in order, the parsed text of every run of ordinary lines and one block per directive, built from its name, stripped remainder and payload |
| Directives.NodesInBlockOrder | scripts/generate_api_docs.py:2300-2342 | the nodes are the blocks' pieces in block order: a text block gives its parsed buffer; a directive line spelled with a name and a rest gives one block built from that name, what stands between the outer spaces of the rest, and the payload |
| Directives.TrimFrames | scripts/generate_api_docs.py:2036 | a trimmed text is the given one without spaces before and after, and has none at its ends |
| Directives.FramedIsTrim | scripts/generate_api_docs.py:2036 | ... and is the only such text |
| Directives.StrippedIs | scripts/generate_api_docs.py:2318 | a stripped line is the given one without the newlines at its end |
| Directives.ContinuationIff | scripts/generate_api_docs.py:2041-2045 | a payload line starts with a space or a tab, or trims to nothing |
| Directives.NameCharsAre | scripts/generate_api_docs.py:1759 | the characters of a directive name |
| Directives.SpacesAre | scripts/generate_api_docs.py:1759-1760 | the space characters |
| Directives.SpelledDirectiveMatches | scripts/generate_api_docs.py:1759 | a line spelled indent, two dots, spaces, name, two colons, rest matches with that name and rest |
| Directives.MatchedDirectiveIsSpelled | scripts/generate_api_docs.py:1759 | ... and every matching line is spelled that way |
| Directives.SpelledOptionMatches | scripts/generate_api_docs.py:1760 | a line spelled indent, colon, name, colon, rest matches with that name and rest |
| Directives.MatchedOptionIsSpelled | scripts/generate_api_docs.py:1760 | ... and every matching line is spelled that way |
| Directives.RestOfLineIff | scripts/generate_api_docs.py:1759-1760 | the rest of a line that does not end in a newline is what follows its leading spaces, if that holds no newline |
| Directives.ConsumeDirectiveBlock | scripts/generate_api_docs.py:2027-2047 | refuses a line that opens no directive, otherwise returns the matched name, the stripped remainder, the longest run of payload lines, and the index past it |
| Directives.SegmentIsLossless | scripts/generate_api_docs.py:2285-2344 | the blocks in order are the input lines in order |
| Directives.SegmentIsWellFormed | scripts/generate_api_docs.py:2285-2344 | no buffer holds a directive line, buffers end only at directives, every payload is maximal |
| Directives.SegmentationIsUnique | scripts/generate_api_docs.py:2285-2344 | no other sequence of blocks has these properties |
| Directives.SplitDirectivePayload | scripts/generate_api_docs.py:2050-2077 | the name and value of each option line in order, then content; only blank lines of the dedented payload are dropped, at the three places they may stand |
| Aliases.ResolveCanonicalName | scripts/generate_api_docs.py:3526-3533 | the guarded chase terminates on every finite map, at the first name whose alias is missing or already visited |
| Aliases.ResolveFindsTheEnd | scripts/generate_api_docs.py:3526-3533 | the result is unmapped exactly when the chain ends, and is then the only unmapped name on it |
| Aliases.EndsMeansIdempotent | scripts/generate_api_docs.py:3526-3533 | on a chain that ends, resolving the result changes nothing |
| Aliases.IdempotentIffSettles | scripts/generate_api_docs.py:3526-3533 | resolving twice equals resolving once exactly when the chain ends or reaches a name that is its own alias |
| Aliases.SecondResolutionOnCycle | scripts/generate_api_docs.py:3526-3533 | on every longer cycle the second resolution gives the name before the first result on the chain, a different one |
| Aliases.TwoCycleIsNotIdempotent | scripts/generate_api_docs.py:3526-3533 | on the cycle of a and b, a resolves to b and b to a: the second resolution undoes the first |
| Aliases.BuildAliasGroups | scripts/generate_api_docs.py:3647-3657 | there is a group for every canonical name with members, holding its members in order |
| Aliases.GroupsKeepOrder | scripts/generate_api_docs.py:3652-3656 | each group lists its aliases in key order, none twice, and none is empty |
| Aliases.ExactlyOneGroup | scripts/generate_api_docs.py:3647-3657 | an alias is in the group of a name exactly when it resolves to that name, the name is registered, and it is not the alias itself |

## Left out

- NumPy itself: arrays are sequences with a shape; transpose, gather, ravel and comparison are given by definition; memory layout, views, write flags and aliasing of buffers are not modelled, so a returned input and a fresh equal copy are the same value.
- Cell kinds: exact kinds, floats and complex pairs are modelled; object and datetime cells, whose equality is their own, are not.
- Group validation (`validate_symmetry_group`, the orbit-size check before the Burnside sum): what it establishes is a precondition.
- The rest of `_perm_group.py`: stabilisers, restriction, interning, closed-form orders, and the caching and cumulative budget around enumeration.
- GroupElements.Dimino: between the budget and one more per generator the contract allows a listing or giving up, since the code checks the budget after products only.
- BlockRepresentatives.YoungRepresentativeCount: closed forms are proved for products of symmetric blocks; for cyclic, dihedral and custom groups the count is the Burnside average (`UniqueElements`).
- OrbitMapCache.Cache.Get: an insertion-ordered dict is a map plus the order of its keys; map entries are 8 bytes each; threads are not modelled.
- DtypeWalk.RefuseNonNumericDtypeTree: when a container that holds containers is met both at the last level and nearer, the outcome depends on the order of members and is bounded on both sides, not determined; which dtypes and leaves are numeric is given with the graph.
- Directives.ParseRichDocBlocks: parsing a buffer of text and building a directive's block are parameters; which lines, name, remainder and payload they are given is proved.
- Directives.SplitDirectivePayload: removing the common indentation is a parameter.
- Aliases.BuildAliasGroups: the sorted key list is a parameter.
- MatrixCells.FillDiagonalOfCube: numpy refuses three or more axes of different extents before the charge matters; such shapes are charged their first extent and nothing more is said of them.
- Padding.ChargeByMode: stated for non-negative widths, the only ones numpy pads with; negative ones give the same sums of products.
- Padding.PadFlopCost: width arguments are integer arrays already; mode names are grouped by how they are charged.
- `F_phi`, `_broadcast_batch`, `_infer_constant_shape_symmetry` and the `budget.deduct` wrappers: single formulas over library calls that would add only easy members.
- Docstring parsing, benchmarks, dashboards, the release verifier, display and the website: input and output.
