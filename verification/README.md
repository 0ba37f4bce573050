# Cornerstone octree verification

Cornerstone octree stores an octree of particles on a space-filling curve as the ascending array of the start keys
of its leaves. The library rebalances, links, traverses, focuses and distributes such arrays with index arithmetic,
in-place loops and messages between ranks. This project models those algorithms in Dafny and proves what they
compute, for every octree, every set of particles and every order of iterations or messages.

A key is a natural number up to 8^L, where the number of levels L is a parameter (10 for 32-bit and 21 for 64-bit
keys); 8^L is the end of the curve. Loops, arrays and classes of the library are loops, arrays and classes here, each
proved against a specification; what the library promises is proved about the specifications.

| part | modules |
|---|---|
| keys, cornerstone arrays, octrees as recursive trees | `Keys`, `CornerstoneArray` (in Cornerstone.dfy), `Octrees`, `Scan` |
| particle counts, rebalancing, convergence | `Counts`, `Rebalance`, `LeafUpdate`, `ComputeOctree`, `EarlyStop`, `UpdateGlobal` |
| covering ranges, inserting keys | `Span` |
| linked octree | `InOrder`, `OctreeLinks`, `LinkedOctree`, `BuildOctree`, `OctreeView`, `Upsweep` |
| traversals | `Traversal`, `DualTraversal`, `StackBound`, `Macs` |
| focused octree on one rank | `FocusRebalance`, `ProtectAncestors`, `FocusUpdate`, `StaleMarks`, `FocusOctrees`, `FocusedOctree`, `FocusConvergence`, `FocusSteps`, `FocusRuns` |
| focused octrees on many ranks | `Treelets`, `TreeletAgreement`, `Ranges`, `ExactCounts`, `UpdateCounts`, `CountAgreement`, `FocusedOctreeMpi` |
| Hilbert curve | `Curves`, `Hilbert`, `HilbertTable` |
| peer search | `Separation`, `Peers`, `HilbertPeers`, `PeerOverflow` |
| binary radix tree | `RadixTree`, `BinaryTree` |
| domain decomposition and particle exchange | `SfcAssignment`, `StableSorting`, `ParticleExchange`, `ExchangeRuns`, `GlobalAssignment`, `ParticleOwnership`, `ParticleConservation` |
| halos | `HaloRequests`, `HaloExchange`, `HaloAgreement`, `Halos` |

The distributed parts form a chain. `UpdateGlobal` gives all ranks the octree and the exact counts of all particles.
`SfcAssignment` derives the key ranges of the ranks and their numbers of particles. `ParticleOwnership` and
`ParticleConservation` show that the exchange puts every particle on its owner and that the counts are still exact for
the keys that the ranks then have. `TreeletAgreement` makes the focused octrees agree, `CountAgreement` counts them
exactly, and `HaloAgreement` delivers the halos on the agreed cells.

Results that correct or sharpen what the library says about itself:

- The three invariants in the comment of csarray.hpp do not describe octrees. They hold of an array with a leaf whose
  sibling is missing. They are sufficient exactly if every leaf starts at a multiple of its size
  (`DocumentedInvariantsAreTooWeak`).
- The dual traversal has a stack of 128 pairs and only an assertion against overflow. It overflows exactly if
  `Need`, a function of the octree and the criterion, exceeds 128. `Need` is at most seven times the heights minus 6, and
  this bound is attained. Peer searches never overflow with 32-bit keys; with 11 or more levels there are octrees for
  which they do (`TenLevelsFit`, `UniformOverflows`, `OverflowingSearch`).
- The status of a focused octree guards its updates: an update is possible only when counts and marks have been renewed.
  It relies on counts and marks that grow towards the root. Counts and new marks do; accumulated marks do if and only
  if every earlier mark belongs to a node whose parent was marked or is opened for some target
  (`MarksAreClosedIff`). The program checks only that there are as many marks as nodes. Two octrees with 25 nodes show
  that this is not enough: marks that are closed in the one are not in the other, and an update with them leaves an
  array that is no octree (`MarksOfAnotherOctree`, `AccumulatedMarksBreakOctree`).
- Updating a focused octree again and again with the same particles, focus and keys ends, in an octree that does not
  depend on the start, although its leaves in the focus decide which cells are marked (`Converge`,
  `FocusOctreeIsUnique`). This holds if and only if 64, 512 and 4096 times the bucket size do not wrap around, in 32
  bits, to less than the bucket size. If one does, and as many particles as fit into one leaf are all there are, the
  root is split and merged for ever, in octrees of more than 3 levels (`NeverSettles`).
- The tree loop of `assign` stops when no leaf is too full. This can be too early: for every number of levels from 2
  on, nine particles make it stop with empty cells that are subdivided, from the octree that a single rank starts with
  (`StopsEarly`). What it stops at is the octree of the particles if and only if one more step would change nothing.
  This is so whenever, before the call or after its first step, only cells with too many particles are subdivided and
  no leaf has more than 8 times too many (`UpdateGlobalTree`).

## Model

| member | source | states |
|---|---|---|
| CornerstoneArray.ArrayIffSet | include/cstone/tree/csarray.hpp:12-34 | an array is cornerstone if and only if it is the ascending listing of a key set in which every cell with a key strictly inside has its nine child boundaries |
| CornerstoneArray.UnionAndIntersection | include/cstone/tree/csarray.hpp:12-34 | union and intersection of the key sets of two octrees are key sets of octrees |
| CornerstoneArray.DocumentedInvariantsAreTooWeak | include/cstone/tree/csarray.hpp:18-29 | the three documented invariants hold of an array that lacks a sibling of its first leaf; with alignment of every leaf to its size they are exactly the cornerstone arrays |
| Octrees.ArraysAreOctrees | include/cstone/tree/csarray.hpp:12-34 | cornerstone arrays are exactly the flattenings of recursive octrees with at most L levels, and an array is the flattening of only one |
| Octrees.IndexIsVisit | include/cstone/tree/octree.hpp:40-100 | for every octree, the number under which the recursive in-order traversal visits an internal node, times 7, is leaf index plus digit weight of the leaf where the program finds the node; there are (leaves - 1) / 7 internal nodes |
| InOrder.InOrderIndex | include/cstone/tree/octree.hpp:56-100 | for a leaf whose common prefix with the next one is a whole number of octal digits, leaf index plus digit weight is exactly 7 times the number of such leaves before it |
| InOrder.NumInternalNodes | include/cstone/tree/octree.hpp:78-100 | 7 times the number of flagged leaves is the number of leaves minus 1, so that the indices are exactly those of the internal nodes |
| InOrder.FlaggedIsMiddle | include/cstone/tree/octree.hpp:78-100 | the node of a flagged leaf is an internal node, and the next leaf starts its child 4 |
| InOrder.BinaryKeyWeight | include/cstone/tree/octree.hpp:56-65 | the loop sums the digit weights of the leading level + 1 octal digits |
| OctreeLinks.DecodeEncode | include/cstone/sfc/common.hpp:173-213 | a placeholder-bit code decodes to the start key and height of its cell |
| OctreeLinks.CreateUnsortedLayout | include/cstone/tree/octree.hpp:78-100 | writes the codes of all internal nodes at their in-order index, and those of all leaves behind them |
| LinkedOctree.CodesAreTree | include/cstone/tree/octree.hpp:115-148 | the codes form a tree: the root is there, and every other code comes with its seven siblings and its parent |
| BuildOctree.BuildOctreeCpu | include/cstone/tree/octree.hpp:168-196 | the arrays list every node of the octree once, ascending by level and key; level ranges delimit levels; child offsets, parents and both leaf maps agree with the geometry of the cells |
| BuildOctree.GetLevelRange | include/cstone/tree/octree.hpp:152-160 | entry l is the position of the first code of level l or higher |
| OctreeView.RepresentsIsView | include/cstone/tree/octree.hpp:168-196 | in what is built, children of a node are the eight octants of its cell, and every cell of the octree has its node |
| Upsweep.SweptCountsParticles | include/cstone/tree/octree.hpp:586-629 | where the leaves have exact counts, upsweep gives every node the number of particles in its cell, cut off at the largest 32-bit number |
| Upsweep.UpsweepCounts | include/cstone/tree/octree.hpp:586-629 | the in-place loop over levels gives every node the saturated sum of its children and keeps the leaves |
| Counts.ComputeNodeCounts | include/cstone/tree/csarray.hpp:182-235 | the counts are those of plain binary searches, whatever the array held before as guesses and in whatever order the loop runs |
| Counts.FindSearchBounds | include/cstone/tree/csarray.hpp:100-133 | from any first guess, the returned bounds bracket the lower bound of the key |
| LeafUpdate.SiblingAndLevelExact | include/cstone/tree/csarray.hpp:251-264 | on a cornerstone array the sibling index is in bounds and exact, and it is returned if and only if all eight siblings are leaves |
| LeafUpdate.StepKeepsCornerstone | include/cstone/tree/csarray.hpp:269-389 | for arbitrary counts, the decisions fit the leaves and the rebalanced array is cornerstone again |
| LeafUpdate.SplitIsLargest | include/cstone/tree/csarray.hpp:269-298 | a leaf that is not merged is split by the largest number k of levels, at most 4 and as far as there are levels, for which it has more than 8^(k - 1) buckets of particles |
| LeafUpdate.LeafBecomes | include/cstone/tree/csarray.hpp:269-389 | after a step, a leaf that is not merged is replaced by exactly the 8^k cells that are this many levels smaller |
| Rebalance.RebalanceTree | include/cstone/tree/csarray.hpp:341-389 | scan and scatter write, leaf by leaf, the merged, kept or subdivided cells that the operations say |
| Rebalance.RebalancedIsCornerstone | include/cstone/tree/csarray.hpp:341-389 | operations that fit and merge whole groups only turn a cornerstone array into a cornerstone array |
| ComputeOctree.OctreeIsUnique | include/cstone/tree/csarray.hpp:395-440 | at most one cornerstone array is cut exactly in the overfull cells of the given particles |
| ComputeOctree.SettledIffOctree | include/cstone/tree/csarray.hpp:310-329 | with exact counts, no decision changes a leaf if and only if the array is the octree of the particles |
| ComputeOctree.StepProgress | include/cstone/tree/csarray.hpp:409-440 | a step that changes something subdivides a further overfull cell, or only shortens the array; no overfull cell is ever merged |
| ComputeOctree.ComputeOctree | include/cstone/tree/csarray.hpp:430-440 | the loop terminates, in the octree of the particles with its exact capped counts |
| UpdateGlobal.UpdateOctreeGlobal | include/cstone/tree/update_mpi.hpp:33-52 | a step on all ranks, with local counts, sum and maximum, leaves every rank with tree, counts and flag of a step with the particles of all ranks |
| UpdateGlobal.GlobalStep | include/cstone/tree/update_mpi.hpp:33-52 | a step on exact counts settles in the octree of all particles, or makes progress |
| UpdateGlobal.ComputeOctreeGlobal | include/cstone/tree/update_mpi.hpp:33-52 | from any common octree and any counts, repeating the step ends on all ranks in the octree of all particles, with exact counts |
| UpdateGlobal.UpdateGlobalTree | include/cstone/domain/assignment.hpp:114-122 | all ranks end with the same octree and exact counts; the step is repeated if and only if it is the first call, or the step changed the octree and left a leaf with at least 8 times the bucket size, and otherwise the result is that of one step; after every call, the first step has changed nothing, or no leaf has as many, or it is the octree of all particles; it is this octree if and only if a further step would change nothing, and always if the octree at the start, or after the first step, needs no merge and no split by two levels |
| EarlyStop.StepNeedsNoMerge | include/cstone/tree/csarray.hpp:310-329 | if only overfull cells are subdivided and no leaf is more than 8 times too full, the same is true after a step |
| EarlyStop.StopsEarly | include/cstone/domain/assignment.hpp:114-122 | an input for which the loop of `assign` stops with exact counts and no leaf too full, but with an empty cell subdivided |
| Span.SpanSfcRange | include/cstone/sfc/common.hpp:422-460 | writes the chain of largest aligned cells from a to b, as many as returned, and changes nothing else; without output it only counts |
| Span.ComputeSpanningTree | include/cstone/tree/csarray.hpp:483-506 | the result is the least cornerstone array with the given keys |
| Span.SpanningTreeIsLeast | include/cstone/sfc/common.hpp:400-460 | the chains between the keys are contained in every octree that has the keys, and form one |
| Span.InjectKeys | include/cstone/focus/inject.hpp:37-57 | the result is the least cornerstone array that has the old leaves and the keys |
| Traversal.SingleTraversal | include/cstone/traversal/traversal.hpp:29-71 | with links and a backtrack flag only, the loop tests the nodes that recursive search tests, in the same order, and ends at the passing leaves |
| Traversal.SearchedOnce | include/cstone/traversal/traversal.hpp:29-71 | a node is tested once if all its proper ancestors pass, and never otherwise |
| DualTraversal.DualTraversal | include/cstone/traversal/traversal.hpp:96-152 | it terminates; it overflows its stack if and only if the start pair needs more than 128 entries; otherwise its calls cover every pair of leaves exactly once |
| DualTraversal.NeedIsBounded | include/cstone/traversal/traversal.hpp:96-152 | a pair of subtrees needs at most 7 entries for every level of both, minus 6 |
| DualTraversal.NearPairsFound | include/cstone/traversal/traversal.hpp:96-152 | for a criterion that spreads to parents, the near calls are exactly the leaf pairs that meet it |
| StackBound.NeedOfFull | include/cstone/traversal/traversal.hpp:96-152 | in a uniform octree in which all pairs are near, the bound is attained |
| Macs.MarksAreAncestorClosed | include/cstone/traversal/macs.hpp:150-226 | marking for any targets and any criterion keeps marks closed under parents |
| Macs.MarkMacs | include/cstone/traversal/macs.hpp:199-226 | in any order of targets, exactly the nodes opened for some target are marked in addition |
| Macs.MarksAreClosedIff | include/cstone/traversal/macs.hpp:150-226 | after marking in addition to earlier marks, all marks are closed under parents if and only if the parent of every earlier mark was marked or is opened for some target |
| Macs.LimitedIsHigher | include/cstone/traversal/macs.hpp:216-225 | of the nodes that a target opens, limiting the sources leaves exactly the root and those that are higher in the octree than the target |
| StackBound.HeightTenOverflows | include/cstone/traversal/traversal.hpp:96-152 | two uniform octrees of height 10 with all pairs near need 134 entries, more than the stack has |
| FocusRebalance.DecisionsInvariant | include/cstone/focus/rebalance.hpp:32-73 | if counts and marks grow towards the root, decisions merge whole sibling groups and everything below what they merge |
| FocusRebalance.FocusSplitIsLargest | include/cstone/focus/rebalance.hpp:55-73 | of the nodes that are not merged, exactly leaves that are marked or start in the focus are split, by the largest number of levels whose threshold, 1, 64, 512 or 4096 times the bucket size, the count exceeds |
| FocusRebalance.ContainingNode | include/cstone/tree/octree.hpp:200-216 | the walk along the digits ends in the smallest node of the octree that contains the cell |
| FocusRebalance.EnforcingKeepsInvariant | include/cstone/focus/rebalance.hpp:184-236 | enforcing a key only raises operations and keeps groups and ancestors together |
| FocusRebalance.EnforcingSecures | include/cstone/focus/rebalance.hpp:184-236 | enforcing fails exactly for keys that are not in the octree and not a child boundary of their leaf; otherwise the key is secured |
| FocusRebalance.EnforceKeys | include/cstone/focus/rebalance.hpp:239-252 | all mandatory keys are secured, and the status is that of the key that is hardest to resolve |
| ProtectAncestors.ProtectAllAncestors | include/cstone/focus/rebalance.hpp:157-169 | in any order of nodes, in place, the result is that of evaluating every node on the original operations |
| ProtectAncestors.RaceIsDeterministic | include/cstone/focus/rebalance.hpp:97-169 | the same for every interleaving of the single reads and writes of all iterations |
| ProtectAncestors.TurnsAreProductive | include/cstone/focus/rebalance.hpp:97-169 | every turn of an unfinished iteration brings it closer to its end and leaves the others as they are |
| FocusUpdate.KeptKeysAreOctree | include/cstone/focus/octree_focus.hpp:65-118 | the leaves that are kept after protecting ancestors form an octree |
| FocusUpdate.StepIsUpdate | include/cstone/focus/octree_focus.hpp:65-118 | unless a key failed, the rebalanced leaves are an octree with all secured keys, and the flag says exactly whether they are unchanged |
| FocusUpdate.UpdateFocus | include/cstone/focus/octree_focus.hpp:65-118 | for every status, the new leaves are cornerstone and have both ends of the focus and all mandatory keys; the flag is true if and only if they are the old leaves; the linked octree is rebuilt for them |
| FocusSteps.UpdateIsNext | include/cstone/focus/octree_focus.hpp:65-118 | after an update from exact counts, an internal node is subdivided if and only if it has more than bucketSize particles and is marked or near the focus, or a mandatory key lies inside; a leaf if and only if it has more and is marked or starts in the focus, or a key lies inside; full leaves become the cells that are as many levels smaller as their particles ask for; no key has to be there before |
| FocusSteps.UnchangedMeans | include/cstone/focus/octree_focus.hpp:65-118 | from exact counts and marks, an update leaves the octree as it is if and only if it is the octree of particles, focus and keys, also if keys are missing |
| FocusedOctree.FocusedOctreeSingleNode.Update | include/cstone/focus/octree_focus.hpp:215-287 | an update keeps the state valid, with counts and marks that again grow towards the root, so that any number of updates keeps what `UpdateFocus` promises; counts and marks are exact for the new leaves |
| StaleMarks.MarksOfAnotherOctree | include/cstone/focus/octree_focus_mpi.hpp:471-500 | marks that are closed under parents in one octree, but not in another one with as many nodes |
| StaleMarks.UnmarkedParentBreaks | include/cstone/focus/octree_focus.hpp:65-118 | in any octree, if a marked node with enough particles has a leaf sibling, not the first, that is merged, the leaves after the update are no octree |
| StaleMarks.AccumulatedMarksBreakOctree | include/cstone/focus/octree_focus.hpp:65-118 | this happens in the second of these octrees with the marks of the first, for every focus in front of the node concerned |
| FocusOctrees.FocusOctreeIsUnique | include/cstone/focus/rebalance.hpp:32-73 | at most one octree is subdivided exactly in the cells that are overfull and marked or near the focus, and in those that hold a mandatory key, where marks are for its own leaves |
| FocusConvergence.SettledIffFocusOctree | include/cstone/focus/octree_focus.hpp:65-118 | an update from exact counts and marks changes nothing if and only if the leaves are this octree |
| FocusConvergence.UpdateIsCloser | include/cstone/focus/octree_focus.hpp:65-118 | any other update makes progress in a well-founded order: first the leaves in the focus settle, and then those outside |
| FocusConvergence.NeverSettles | include/cstone/focus/rebalance.hpp:62-70 | with a threshold that wraps around and exactly one full leaf of particles, no update ever leaves the octree as it is |
| FocusRuns.UpdateOnce | include/cstone/focus/octree_focus.hpp:236-269 | one update of the class is such a step: its flag is true exactly in the octree of particles, focus and keys, and otherwise the leaves come closer to it |
| FocusRuns.Converge | test/unit/focus/octree_focus.cpp:357 | repeating updates until the flag is true terminates; from a new octree or after an update with the same arguments it ends in the octree of particles, focus and keys |
| Treelets.PrunedAre | include/cstone/focus/exchange_focus.hpp:99-128 | the owner keeps exactly the keys of the treelet that it has itself, also when the range boundary cuts a leaf |
| TreeletAgreement.SurvivorsAreOctree | include/cstone/focus/exchange_focus.hpp:147-194 | removing what all peers reject leaves an octree |
| TreeletAgreement.SyncLeaves | include/cstone/focus/exchange_focus.hpp:147-218 | in any order of messages, the new leaves are cornerstone and are exactly what survives |
| TreeletAgreement.TreeletsAgree | include/cstone/focus/exchange_focus.hpp:197-218 | afterwards, what an owner has kept of a treelet is what the requester has in the range of the owner |
| TreeletAgreement.IndexTreelet | include/cstone/focus/exchange_focus.hpp:280-300 | every cell of the treelet is found among the nodes of the owner |
| TreeletAgreement.PrunedTreeletIsIndexable | include/cstone/focus/exchange_focus.hpp:280-300 | the cells of every agreed treelet are nodes of the owner's octree, which is what indexing asserts |
| Ranges.InvertRanges | include/cstone/domain/layout.hpp:60-76 | the result is the complement of the sorted ranges |
| Ranges.SortingRanges | include/cstone/domain/domaindecomp.hpp:158-167 | ranges that are apart can be sorted for inversion, and cover the same indices |
| ExactCounts.FocusPeers | include/cstone/focus/peer_flags.hpp:33-57 | on ascending trees, a rank is flagged if and only if it is another one and some key of the focus tree in its range is not a key of the global tree there |
| ExactCounts.PeerIffFiner | include/cstone/focus/peer_flags.hpp:33-57 | with present ranges, a rank is a peer if and only if the focus tree has a key in its range that the global tree does not have |
| ExactCounts.NonPeerKeysAreGlobal | include/cstone/focus/peer_flags.hpp:33-57 | in the range of a rank that is not flagged, all keys of the focus tree are keys of the global tree |
| ExactCounts.RangeCount | include/cstone/focus/rebalance.hpp:264-284 | leaves that are delimited by global keys get exact counts from the global tree, others keep theirs |
| UpdateCounts.MessageIsExact | include/cstone/focus/exchange_focus.hpp:304-359 | what an owner sends after its first sweep are the exact counts of the requester's leaves in its range |
| UpdateCounts.SecondSweep | include/cstone/focus/octree_focus_mpi.hpp:230-247 | with the counts of the peers, in any order of messages, all counts of a rank become exact |
| CountAgreement.RanksAreCountable | include/cstone/focus/octree_focus_mpi.hpp:138-163 | peers flagged before the agreement and the agreed leaves are all that counting needs: every other leaf is delimited by global keys |
| CountAgreement.FlaggedWorldIsReady | include/cstone/focus/peer_flags.hpp:33-93 | ranks with the ends of their ranges and flagged peers can agree on treelets |
| CountAgreement.PeersAreFiner | include/cstone/focus/peer_flags.hpp:33-93 | every peer of a rank has a range in which the octree of the rank is finer than the global one |
| CountAgreement.UpdateAllCounts | include/cstone/focus/octree_focus_mpi.hpp:193-247 | on all ranks, in any order of messages, all counts of all nodes and leaves are those of the particles of all ranks |
| FocusedOctreeMpi.FocusedOctree.UpdateTree | include/cstone/focus/octree_focus_mpi.hpp:101-136 | if a criterion is out of date, reports it and changes nothing; otherwise, from marks that grow towards the root, the new leaves are an octree with both ends of the range and all enforced keys that follows from the decisions for counts, marks and bucket size; from exact counts, nodes are subdivided as in `UpdateIsNext`; from exact counts and marks, the flag is true if and only if the old leaves were the octree of the particles of all ranks; the first update of a new octree splits the root |
| FocusedOctreeMpi.FocusedOctree.SyncTree | include/cstone/focus/octree_focus_mpi.hpp:138-157 | removes what the peers reject and rebuilds the linked octree for what survives |
| FocusedOctreeMpi.FocusedOctree.UpdateCounts | include/cstone/focus/octree_focus_mpi.hpp:193-251 | all counts become exact, grow towards the root, and are marked as renewed; the marks and their status stay |
| FocusedOctreeMpi.FocusedOctree.UpdateMacs | include/cstone/focus/octree_focus_mpi.hpp:471-500 | marks exactly the nodes that the focus opens, in addition to accumulated marks, and reports a wrong number of marks; new marks grow towards the root, and accumulated marks exactly if every earlier mark gets a marked parent |
| FocusedOctreeMpi.ExactCountsGrow | include/cstone/focus/octree_focus_mpi.hpp:230-250 | exact counts of all nodes grow towards the root |
| FocusedOctreeMpi.MeasuredIsAccurate | include/cstone/focus/octree_focus_mpi.hpp:471-500 | exact counts and new marks for tests on cells are what `UpdateTree` needs for the flag to be exact |
| Hilbert.HilbertCurve | include/cstone/sfc/hilbert.hpp:45-173 | for every number of levels, encoding and decoding are mutually inverse, and points of consecutive keys are at distance 1 |
| Hilbert.IHilbert | include/cstone/sfc/hilbert.hpp:45-94 | the loop over registers computes the encoding |
| Hilbert.DecodeHilbert | include/cstone/sfc/hilbert.hpp:131-173 | the loop computes the decoding |
| HilbertTable.SubcubeOfDigits | include/cstone/sfc/hilbert.hpp:45-94 | for every number of levels from 2 on, a written-out table says which of the 64 sub-cubes the keys with two given leading digits fill |
| HilbertTable.KeyIsInSubcube | include/cstone/sfc/hilbert.hpp:131-173 | every key decodes to a point of the sub-cube of its two leading digits |
| Hilbert.HilbertIBox | include/cstone/sfc/hilbert.hpp:260-275 | the box of a cell contains exactly the points whose keys are in the cell |
| Hilbert.BoxesNest | include/cstone/sfc/hilbert.hpp:260-275 | the box of a cell lies in the boxes of all cells around it |
| Curves.CubeOfCell | include/cstone/sfc/hilbert.hpp:260-275 | for a curve that keeps blocks, the points with keys in a cell are those of the aligned cube around the point of its first key |
| Separation.RangeSepIsSeparation | include/cstone/traversal/boxoverlap.hpp:55-62 | the computed separation is the smallest circular distance between points of two ranges |
| Separation.MacIsSeparation | include/cstone/traversal/macs.hpp:136-146 | the criterion holds if and only if points of the two boxes are always further apart, in the scaled and periodic metric, than two points of the same box are in any dimension |
| Separation.MacFailureSpreads | include/cstone/traversal/macs.hpp:136-146 | if two boxes are too close, so are any boxes around them, in either order |
| Peers.PeersAreMutual | include/cstone/traversal/peers.hpp:24-104 | a rank is a peer of another if and only if the other is one of it |
| Peers.FindPeersMac | include/cstone/traversal/peers.hpp:47-104 | unless a traversal overflows, which is said exactly, the ascending list of the ranks with a leaf too close to an own leaf |
| Peers.TenLevelsFit | include/cstone/traversal/peers.hpp:47-104 | with at most 10 levels no peer search overflows |
| HilbertPeers.FindHilbertPeers | include/cstone/traversal/peers.hpp:47-104 | the same for the boxes of the Hilbert curve and the separation criterion of the program |
| HilbertPeers.HilbertPeersAreMutual | include/cstone/traversal/peers.hpp:47-104 | being peers on the Hilbert curve is mutual |
| PeerOverflow.UniformOverflows | include/cstone/traversal/traversal.hpp:96-152 | with all cells close and the first octant owned by rank 0, its search overflows if and only if the uniform octree has at least 11 levels |
| PeerOverflow.OverflowingSearch | include/cstone/traversal/peers.hpp:47-104 | for every L from 11 on, builds an octree on the Hilbert curve and a criterion for which the search overflows |
| RadixTree.NodeIsLargestGroup | include/cstone/tree/btree.hpp:146-251 | the range of a node is the largest group with a common prefix that has the node's index at an end |
| RadixTree.OneParent | include/cstone/tree/btree.hpp:146-251 | a leaf or node has exactly one parent if and only if it is not the root |
| BinaryTree.FindSplit | include/cstone/tree/btree.hpp:103-134 | the split is the last code that shares more bits with the first code than the last one does |
| BinaryTree.ConstructInternalNode | include/cstone/tree/btree.hpp:146-216 | writes the node whose range, split, prefix and children are those of its index, and no other |
| BinaryTree.PrefixTells | include/cstone/tree/btree.hpp:146-216 | the stored prefix is shared by exactly the codes of the node's range |
| BinaryTree.BuiltTreeIsOneTree | include/cstone/tree/btree.hpp:244-251 | nodes built in any order form one tree: one parent each, and all codes as leaves from left to right |
| SfcAssignment.UniformBins | include/cstone/domain/domaindecomp.hpp:33-55 | bins are contiguous and cover all leaves; each ends where the sum of counts first reaches its target; if the targets are the multiples of the mean count, every bin count differs from the mean by less than the largest leaf count plus 1 |
| SfcAssignment.MeanTargetsAre | include/cstone/domain/domaindecomp.hpp:33-55 | multiples of the mean count, rounded down, ascend and do not exceed the total |
| SfcAssignment.MakeSfcAssignment | include/cstone/domain/domaindecomp.hpp:113-127 | range boundaries are leaf keys from 0 to the end of the curve, and the counts are the numbers of particles in the ranges, which are near the mean if the targets are multiples of it |
| ParticleExchange.ReceiveRangeIsFree | include/cstone/domain/buffer_description.hpp:98-125 | incoming particles fit next to the present ones without overlap, in front of them if and only if there is room, and the envelope is what both occupy; the buffer grows only if there is room on neither side, and no more than needed |
| ParticleExchange.SentToOwner | include/cstone/domain/domaindecomp.hpp:179-201 | a particle is in the range sent to a rank if and only if its key is in the range of the rank |
| ParticleExchange.ReceiveParticles | include/cstone/domain/domaindecomp_mpi.hpp:70-154 | the receiving loop ends with the last message, puts every message at its place, logs it, and changes nothing else |
| ExchangeRuns.AllArrive | include/cstone/domain/domaindecomp_mpi.hpp:70-154 | in any order of messages, what arrives and what is present are exactly the particles of all ranks in the range of the rank |
| ExchangeRuns.ReplayLandsSame | include/cstone/domain/domaindecomp_mpi.hpp:112-138 | with the log of an exchange, messages of the same sizes in any other order fit and land where those of the same ranks landed |
| StableSorting.LowComeFirst | include/cstone/domain/assignment.hpp:191-200 | a contiguous part of entries that all precede the others keeps its order at the front of the sorted list |
| GlobalAssignment.RepeatedMessagesAreSame | include/cstone/domain/assignment.hpp:205-212 | with shifted ranges and the order after sorting, the messages of a repeated exchange are those of the first one |
| GlobalAssignment.OwnedAfterExchange | include/cstone/domain/assignment.hpp:187-247 | in the sorted envelope, a position is from `postExchangeStart` on and among the assigned ones if and only if its key is in the range of the rank |
| GlobalAssignment.GlobalAssignment.Distribute | include/cstone/domain/assignment.hpp:166-201 | sends what the ranges say, stores and logs what arrives, and sorts keys and indices of present and received particles stably |
| GlobalAssignment.GlobalAssignment.RedoExchange | include/cstone/domain/assignment.hpp:205-212 | sends the same particles' fields, and puts every message where that of the same rank is, in any order of arrival |
| ParticleOwnership.ExchangeIsPrepared | include/cstone/domain/assignment.hpp:166-201 | if all ranks have sent what the boundaries say, the messages to a rank have keys of its range and fill exactly the room that `distribute` expects |
| ParticleOwnership.RunsFitTogether | include/cstone/domain/assignment.hpp:166-201 | ranks that have each carried out `distribute` with the messages of the others form one exchange: what each has sent is what the others have received |
| ParticleOwnership.EveryParticleOnce | include/cstone/domain/assignment.hpp:166-201 | after the exchange of all ranks, owned positions of a rank and particles of its range on all ranks correspond one to one, with key and field |
| ParticleOwnership.NoParticleIsLost | include/cstone/domain/domaindecomp_mpi.hpp:70-154 | every particle of every rank that is not removed is owned by exactly one rank, at exactly one position |
| ParticleConservation.CountsStayExact | include/cstone/domain/assignment.hpp:166-201 | after the exchange ranks have sorted keys of their own ranges, and counts that were exact before are exact for them |
| HaloRequests.ComputeNodeLayout | include/cstone/domain/layout.hpp:152-182 | offsets grow by the count of a leaf if it is own or a halo, and not otherwise |
| HaloRequests.ExtractMarkedElements | include/cstone/domain/layout.hpp:112-141 | the keys delimit, in order, runs that together contain exactly the marked leaves |
| HaloExchange.RequestedAreWanted | include/cstone/domain/exchange_keys.hpp:46-99 | the owner's indices for a request are those of its particles in all requested cells, in order |
| HaloExchange.ReceiveHalos | include/cstone/halos/exchange_halos.hpp:58-93 | in any order of messages, every message is put into its range, and nothing else changes |
| Halos.Halos.SendRequests | include/cstone/halos/halos.hpp:60-75 | asks exactly the ranks in whose leaves there are particles, for their halo cells, and sets where the answers go |
| Halos.Halos.ReceiveRequests | include/cstone/domain/exchange_keys.hpp:70-99 | stores for every asking rank the indices of the requested particles |
| Halos.Halos.ExchangeHalos | include/cstone/halos/halos.hpp:84-104 | sends the requested particles of a field and puts what arrives into its places, in any order; requests stay as they are for further fields |
| Halos.StatesFitTogether | include/cstone/halos/halos.hpp:60-104 | what a rank expects and what the other packs for its request are an answer in the exchange of all ranks |
| HaloAgreement.HaloCellAgrees | include/cstone/halos/halos.hpp:60-75 | on agreed octrees with exact counts, requester and owner expect the same number of particles in every halo cell |
| HaloAgreement.MessagesFit | include/cstone/halos/halos.hpp:60-75 | answers have the size that is expected, and go to separate ranges of the buffer |
| HaloAgreement.ExchangeAllHalos | include/cstone/halos/exchange_halos.hpp:27-93 | all ranks receive their answers, each in any order |
| HaloAgreement.AllHalosDelivered | include/cstone/halos/exchange_halos.hpp:27-93 | afterwards every halo cell of every rank holds the particles that its owner has in the cell, in the same order, and nothing else has changed |

## Left out

- GPU kernels and device buffers.
- Packing of messages into bytes, transfer limits, and exchanges with several messages from one sender: a message is a sequence, there is one per sender, and messages arrive in any order.
- Floating-point geometry: keys from coordinates, boxes, centres and sizes of cells. `Peers` and `HilbertPeers` compute with exact real numbers; the closeness test of focus marking is a parameter, for pairs of nodes in `FocusedOctreeMpi` and for pairs of cells in `FocusedOctree`. The multiples of the mean count in `uniformBins` are exact.
- Widths of registers where keys fit: keys are naturals up to 8^L, and 3L is below 2^32. `IHilbert` needs L of at most 32.
- Counts.FindSearchBounds: does not model the conversion of keys to signed numbers, because keys and indices are unbounded here; for the key 2^63 of removed particles the source multiplies a direction with a signed key.
- LeafUpdate.StepKeepsCornerstone: needs bucketSize * 512 below 2^32, as the decision multiplies the bucket size by 8, 64 and 512 without a check. The decisions of focused trees are modelled with 32-bit wrap-around and need no such condition.
- LeafUpdate.SiblingAndLevelExact: does not cover leaf arrays that are only a part of an octree, where the source may read in front of the array.
- ComputeOctree.ComputeOctree: needs a cap on counts above the bucket size; with a lower cap the loop cannot see overfull leaves.
- UpdateGlobal.UpdateOctreeGlobal: needs fewer than 2^32 particles on all ranks together, because the all-reduce sums 32-bit counts.
- DualTraversal.DualTraversal: does not model what the source does after writing behind its stack; the overflow is reported instead.
- ExactCounts.FocusPeers: ranges of the global tree are arbitrary within bounds, because the source passes those of the previous update.
- BinaryTree.CreateBinaryTree: says nothing of the last node when the codes end with the end of the curve, which has no bits in common with any code.
- ProtectAncestors.RaceIsDeterministic: an iteration reads one operation at a time, and every read and write is atomic.
- FocusedOctree.FocusedOctreeSingleNode.Update: reuse of node arrays as scratch space during an update is not modelled.
- Sorting, unique and inclusion tests of the C++ library are functions with their specifications, except for the stable sort of the exchange.
- FocusedOctreeMpi.FocusedOctree.UpdateTree: needs marks that grow towards the root, which the program does not check; `AccumulatedMarksBreakOctree` shows what happens without them.
- FocusedOctreeMpi.FocusedOctree.UpdateMacs: centres and radii are a closeness test.
- FocusRuns.Converge: needs thresholds that do not wrap around to less than a bucket, see `NeverSettles`; the repetition on many ranks is not modelled.
- UpdateGlobal.UpdateGlobalTree: that the loop of `assign` ends in the octree of the particles is equivalent to a condition on its result; the conditions on the octree before it are sufficient only.
- The class `Domain` with its order of calls, `discoverHalos`, and the stored boxes and centres of focused octrees.
- SfcAssignment.MakeSfcAssignment: needs fewer than 2^32 particles in all, because counts of leaves are cut off at the largest 32-bit number. The same holds for `HaloAgreement`.
- The one-sided peer search `findPeersMacStt`, Morton keys, two-dimensional curves, `checkLayout`, neighbour search, gravity and field handling.
