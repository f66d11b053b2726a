# Oblivious band joins: model and proofs

The repository joins several tables inside an enclave with band conditions (`child.x` within an interval around `parent.y`) without ever comparing rows of two tables when it concatenates them. It counts for every row how often it occurs in the result, replicates the rows that often, sorts both sides of each edge and puts row i next to row i. Why this yields the join is an argument in comments. This project models the code and proves that argument.

Four groups of modules:

- **The join** (`Totals`, `Records`, `Boundary`, `Combined`, `BottomUp`, `TopDown`, `JoinTree`, `Counting`, `TrimmedRows`, `Distribute`, `JoinSpec`, `Columns`, `Weights`, `NodeTotals`, `GroupsOfCopies`, `AlignKeys`, `AttachSums`, `WholeJoin`, `Align`, `AlignConcat`, `Multiplicities`, `Pipeline`, `CounterBounds`). The four phases are methods over arrays. `Pipeline.RunJoin` composes them: for every tree with valid bands, every outcome of the unstable sorts and all shuffle bits, the rows returned are the rows of the declarative join, with their multiplicities.
- **Permutation and routing networks** (`Waksman`, `WaksmanReach`, `ObliviousSort`, `AksNetwork`, `AksInPlace`, `AksExternal`, `NetworksAgree`). Every rearrangement is reached by the Waksman switches; the sort of the join is discharged from the shuffle; the AKS recursion delivers every entry, in memory and in chunks of host memory, and ends with the same rows in the same slots as the distance-halving network.
- **From query to join** (`Conditions`, `KeptBands`, `Permutations`, `TreeVariants`, `JoinGraph`, `PostorderWalk`, `SerializedTree`, `VariantCount`, `VariantShape`, `Serializer`, `VariantArrays`, `VariantNumbers`, `SpanningTree`, `UnrolledTrees`, `VariantOrder`, `HostLayout`, `QueryAnswer`). Comparisons become bands, bands on one column pair are intersected, the join graph becomes a node array selected by a variant number, and `QueryAnswer.RunQuery` runs the join on it: the rows returned answer the query.
- **Around the join** (`BatchCollector`, `BatchDistribute`, `MinHeap`, `MergeFronts`, `KWayMerge`, `MergeSort`, `RankOrder`, `PlanGraph`, `Planner`, `PlanEnumeration`, `PlanChain`, `LeftDeep`, `PlanCost`, `BandCardinality`, `BandSearch`). The batching cache is transparent, the resumable merge sorts, the planner lists every plan once, the cardinality program counts.

A join tuple is a map from nodes to row numbers; its content is the attributes of its rows in attach order. `IsJoin` compares multisets of contents, so rows with equal attributes are counted as often as they should be.

`dafny verify dfyconfig.toml` checks everything.

## Findings

Where the code does not do what it is meant to do, the model keeps the code, a lemma names an input, and another gives the exact condition, told from what the caller passes.

- **Variant counts are cast to int32** (`app/join/join_tree_serializer.cpp:204-205`, `246`). A table joined with 13 others has 13! = 6227020800 orderings, of which the host counts 1932053504 (`VariantShape.StarCountsShort`). Variant numbers and orderings correspond one to one exactly if every root's number of orderings survives the wrap to 64 bits and the two casts (`VariantShape.VariantsCorrespondExactly`, `UnrolledTrees.QueryVariantsExactly`); `VariantShape.ComparedExactly` says which numbers do: those below 2^31 and the last 2^31 below 2^64. Variant 0 is promised to be the first FROM table as root with children in constraint order (`app/join/join_tree_serializer.cpp:236-242`); it is exactly if that root's number of orderings does not become 0 in the casts (`VariantOrder.HistoricalVariant`, `VariantZeroArray`).
- **The distance pass applies its last pair twice** (`baselines/batching/app/data_structures/table.cpp:232-239`): the loop ends with the pair (0, distance), and the block after it adds that pair again. A kernel that swaps leaves two rows as they were (`BatchCollector.SwappedBack`). The pass is the loop exactly if the kernel has settled that pair (`SecondPair`), and on all tables exactly for idempotent kernels (`PassIsLoop`). The distribute kernel is not idempotent (`BatchDistribute.NotIdempotent`, exact condition `SettledExactly`), but padding in the second slot settles the pair (`PaddingSettles`), and over a queue of rows the repetition never does anything (`DistancePassSpreads`).
- **Comparisons of far-apart values are cut off** (`app/query/inequality_parser.cpp:103-149`, `common/constants.h:34-37`). The stand-ins for infinity are finite, so `>=` between the largest and the smallest safe attribute is refused although it holds (`Conditions.FarIsCutOff`), and `!=` becomes a band that accepts nothing (`NotEqualRefuses`). `OperatorBand` says exactly when: for every operator and deviation the band accepts what the operator says and `InReach`, a bound on the distance of the two values that no values meet for `!=`.
- **A failed merge is reported and ignored** (`app/query/query_parser.cpp:170-180`). The constraint that is kept can accept rows that the conditions refuse (`KeptBands.FailedMergeAccepts`). `KeptBands.KeptBandExactly` gives the exact condition for every list of bands on one column pair: any two of them have a difference in common, or one of them, which shares none with those that count before it, is kept all the same, because it comes first, because it leaves the gap between two neighbouring open ends, or because an end of what it leaves is missing. In the safe range this reads: any two conditions have a difference in common, or one of them, the first by itself or a later one that can be merged with all that count before it, leaves a gap (`KeptBandInRange`); a merge fails exactly if two of the conditions cannot be merged with each other (`FailsExactly`, `SomeMergeFails`). The order matters: above 0, below 1, equal to 5 is kept right, equal to 5, above 0, below 1 is not (`OrderMatters`).
- **A missing end is never checked against the other end** (`app/query/condition_merger.cpp:107-109`). With a deviation of JOIN_ATTR_NEG_INF - 1 a band that contains nothing passes as valid (`Conditions.MissingEndUnchecked`). Parsing admits every int32 deviation (`app/query/inequality_parser.cpp:56-58`), so such a band can arise. `Conditions.MergeRightExactly`: merging judges two bands on one column pair rightly exactly if their intersection is proper or misses neither end. A condition that stands alone is not judged at all; `OperatorProperExactly` says for which deviations its band is proper, `OperatorSoundExactly` for which the join can work with it. With offsets in the safe range merging is always right (`MergeIffValid`).
- **The skip flag of both sweeps is never set** (`enclave/trusted/join/bottom_up.c:91-94`, `enclave/trusted/join/top_down.c:112-114`): the sort puts an open START behind the sources at its value (`Combined.NoSkip`, for every sorted array).
- **chain_output without hops returns 0** (`scripts/higgs_common.py:95-100`), where a chain of one table has a tuple for every row (`BandSearch.NoHops`); one row is the smallest input (`NoHopUncounted`). It counts the tuples of a chain exactly if there is a hop or no row (`ChainCountsExactly`).

## Assumptions

- Multiplicities, running sums, slot numbers and alignment keys are mathematical integers. `CounterBounds` bounds every one of them: if the join, the subtree joins and the products of the subtree joins of a node's children fit (`CounterBounds.SizesFit`), then `local_mult` at every stage, `acc`, `interval`, `weight`, `final_mult`, `foreign_sum`, `dst_idx`, slot numbers, `copy_index` and `alignment_key` fit int32. Join attributes and band ends stay within 32 bits exactly for deviations from JOIN_ATTR_MIN - 8 to JOIN_ATTR_MAX + 7 (`Conditions.OffsetsFitExactly`).
- Bands of the join tree are valid: the lower end is below the upper one, or both are equal and closed.
- The nodes of a join tree use different tables, children come before parents in the array, the root is last.
- A query's constraints form a spanning tree of its FROM tables, with at most 15 neighbours per table. (`factorial` is stuck at 15! beyond that: `Permutations.SaturatingFactorial`.)
- Comparators of the join are total preorders, those of the external merge sort strict weak orders (`baselines/batching/common/comparator_convention.h:11-13`). The C library's qsort may return any sorted rearrangement. Switch bits are arbitrary.
- The dispatcher applies the operations of a batch in order.

## Model

| member | source | states |
|---|---|---|
| Pipeline.RunJoin | enclave/trusted/join/align.c:153-212 | the four phases on loaded tables: for a complete, duplicate-free list of the tuples that satisfy all bands, the multiset of result rows is the multiset of their contents, columns in attach order, whatever the sorts do with ties |
| QueryAnswer.RunQuery | app/join/join_tree_serializer.cpp:219-309 | constraints in, rows out: there is a result exactly if the variant is below the number of variants and every column a constraint names is listed by its table, each failure exactly otherwise; the variant selects the node array, and whatever it is, the result holds one row for every choice of rows whose values satisfy the constraints, and no other |
| QueryAnswer.TuplesSatisfy | app/join/join_tree_serializer.cpp:288-306 | the tuples of the serialised join are exactly the choices of one row per table whose column values satisfy the query's constraints |
| QueryAnswer.QueryConstraints | app/query/query_parser.cpp:142-189 | for every list of parsed comparisons: if no merge failed the constraints accept exactly the values in reach that meet all comparisons, if one failed no values in reach meet them; with usable deviations the join can work with every constraint |
| QueryAnswer.AnswersComparisons | app/query/inequality_parser.cpp:81-156 | a choice of rows is in the result exactly if its values are in reach and meet every parsed comparison |
| BottomUp.ComputeLocalMult | enclave/trusted/join/bottom_up.c:31-126 | one edge: every parent row's multiplicity is multiplied by the sum of the multiplicities of the child rows inside its band; nothing else changes |
| Combined.BandSum | enclave/trusted/join/skinny.c:18-27 | for every valid combination of open and closed ends, what precedes END minus what precedes START is the weight inside the band |
| Combined.SweptBound | enclave/trusted/join/bottom_up.c:89-96 | in any sorted order, the running sum at a START or END is the weight of the source rows on its side of the band end |
| Combined.NoSkip | enclave/trusted/join/bottom_up.c:91-94 | on a sorted array the skip flag is never set |
| Boundary.PrefixIsBefore | enclave/trusted/join/bottom_up.c:87-96 | a running sum over a sorted array does not depend on how ties were broken, as long as tied records weigh nothing |
| Boundary.ComparatorsOrder | enclave/trusted/join/skinny.c:29-70 | the three record comparators are total preorders |
| Counting.BottomUpPhase | enclave/trusted/join/bottom_up.c:130-182 | after the phase every row's local_mult is the product over its node's children of the match sums, in freshly initialised tables with the input's attributes |
| Multiplicities.LocalMultCounts | enclave/trusted/join/bottom_up.c:130-182 | local_mult of a row is the number of join tuples of its node's subtree that use it |
| TopDown.ComputeFinalMult | enclave/trusted/join/top_down.c:41-157 | one edge: final_mult is local_mult times the shares inside the reversed band, foreign_sum the shares before it |
| TopDown.WeightIsMatchSum | enclave/trusted/join/top_down.c:105-121 | at every SOURCE the running weight is the match sum that the bottom-up sweep computed for that parent row |
| TopDown.SeedIsRight | enclave/trusted/join/top_down.c:60-71 | seeding the weight of record 0 with its local_mult is right: a SOURCE in front has no partner, so bottom-up made its local_mult zero |
| NodeTotals.ShareIsGroups | enclave/trusted/join/top_down.c:119-121 | the division of final_mult by the weight is exact, and the quotient is the number of groups of tuples that use the parent row |
| Counting.TopDownPhase | enclave/trusted/join/top_down.c:161-207 | after the phase local and final multiplicities satisfy the counting equations on every edge, and attributes are unchanged |
| Multiplicities.FinalMultCounts | enclave/trusted/join/top_down.c:161-207 | final_mult of a row is the number of full join tuples that use it |
| Multiplicities.FinalMultsAddUp | enclave/trusted/join/align.c:11-12 | the final multiplicities of every table add up to the size of the join |
| CounterBounds.SubtreeSizeCounts | enclave/trusted/join/bottom_up.c:130-182 | the local multiplicities of a node add up to the size of its subtree's join |
| CounterBounds.BottomUpFits | enclave/trusted/join/bottom_up.c:115-118 | local_mult at every stage and every interval fit int32 if the sizes fit |
| CounterBounds.BottomUpSweepFits | enclave/trusted/join/bottom_up.c:87-96 | so does acc at every record of every edge's sweep |
| CounterBounds.TopDownSweepFits | enclave/trusted/join/top_down.c:105-122 | so do the running weight and acc of the top-down sweep |
| CounterBounds.RowFits | enclave/trusted/join/top_down.c:145-149 | so do final_mult and foreign_sum, and foreign_sum plus the row's groups |
| CounterBounds.SlotsFit | enclave/trusted/join/distribute.c:62-78 | so do dst_idx and the output size |
| CounterBounds.KeysFit | enclave/trusted/join/align.c:81-96 | so do copy_index and alignment_key |
| Distribute.ExpandSingleTable | enclave/trusted/join/distribute.c:49-141 | the output is the table with every row final_mult times, consecutively, in row order, slots numbered |
| Distribute.SlotClosedForm | enclave/trusted/join/distribute.c:112-120 | after the pass at distance h the i-th real row, bound for d, is whole steps of h from i, the last slot of that kind not beyond d |
| Distribute.Pass | enclave/trusted/join/distribute.c:116-119 | one right-to-left pass takes all real rows from their slots for 2h to their slots for h and displaces none |
| Distribute.Route | enclave/trusted/join/distribute.c:112-120 | the whole network takes the real rows from the front to their destinations, all other slots hold padding |
| Distribute.ResizedSpread | enclave/trusted/join/distribute.c:99-110 | truncating to the output size drops only rows without copies |
| Distribute.FillOwner | enclave/trusted/join/distribute.c:122-136 | after filling forward, row k owns exactly the slots from its dst_idx on, final_mult of them |
| Weights.AttachWeight | enclave/trusted/join/align.c:8-26 | attaching row r of node c turns the factor of c in a tuple's number of extensions into r's local_mult |
| NodeTotals.StageExtends | enclave/trusted/join/align.c:140-151 | extending all partial tuples by a node keeps, for every attached table, the balance between a row's final_mult and the weights of the tuples that use it |
| GroupsOfCopies.SortedIsFlattened | enclave/trusted/join/align.c:68-72 | however ties were broken, the sorted accumulator is its distinct groups one after the other, each as long as its number of continuations |
| AlignKeys.KeyedExpanded | enclave/trusted/join/align.c:81-96 | on an expanded table the two loops number every row's copies from 0 and give the copy with number i the key foreign_sum + i / local_mult |
| AttachSums.TakesMatchingGroups | enclave/trusted/join/align.c:91-96 | the keys of a child row are exactly the numbers of the groups whose value lies in its band |
| AttachSums.AttachRepresents | enclave/trusted/join/align.c:53-126 | the attach invariant: if each partial tuple occurs as often as it extends to full tuples, this also holds of the two sorted sides put side by side, with the child included |
| AlignConcat.SizesAgree | enclave/trusted/join/align.c:103-116 | accumulator and expanded child have the same number of rows |
| Align.AttachChild | enclave/trusted/join/align.c:53-126 | the new accumulator is a sort of the old one next to a sort of the keyed child, row by row, widths added |
| AlignConcat.AttachNode | enclave/trusted/join/align.c:189-203 | attaching a node to an accumulator that represents its tuples gives one that represents the tuples with the node |
| AlignConcat.EmitPreorder | enclave/trusted/join/align.c:130-138 | the recursion appends the pre-order of the node's subtree to the buffer |
| AlignConcat.AlignTables | enclave/trusted/join/align.c:153-212 | from expanded tables with right multiplicities the double loop produces the join |
| Columns.AttachOrderComplete | enclave/trusted/join/align.c:149-151 | the attach order has every node once |
| Columns.SiblingsInOrder | enclave/trusted/join/align.c:130-138 | in the pre-order everything below an earlier child of a node comes before everything below a later one |
| Columns.AttachOrderOrdered | enclave/trusted/join/align.c:189-203 | children are attached in the order of their parents in the pre-order, those of one parent in array order |
| Columns.ContentColumn | enclave/trusted/join/align.c:193-196 | column j of node k sits at the node's recorded offset plus j in every result row |
| WholeJoin.JoinEveryListing | enclave/trusted/join/align.c:205-211 | with every node attached each tuple occurs once: the accumulator is the join for every listing of the tuples |
| TrimmedRows.RowComparatorsOrder | enclave/trusted/join/trow.c:22-72 | the padding-last and alignment-key comparators are total preorders |
| TrimmedRows.RrCompare | enclave/trusted/join/trow.c:91-103 | the loop without early exit computes the lexicographic comparison, padding last |
| TrimmedRows.RrCmpOrders | enclave/trusted/join/trow.c:91-103 | that comparison is a total preorder |
| HostLayout.ResultLayout | app/sgx/sgx_join.cpp:58-78 | the host lists the columns of the nodes in the enclave's attach order |
| HostLayout.LayoutMatchesRows | app/sgx/sgx_join.cpp:44-78 | entry i of the host's layout names column j of node k, and index i of every result row holds column j of node k's row |
| HostLayout.ColumnOwner | enclave/trusted/join/align.c:193-196 | every result index belongs to a column of a node |
| HostLayout.ColumnsApart | enclave/trusted/join/align.c:193-196 | different columns have different result indices |
| Waksman.NumSwitches | enclave/trusted/join/oblivious_sort.c:49-59 | the loop computes n*log2(n) - n + 1 for n a power of two |
| Waksman.Shuffle | enclave/trusted/join/oblivious_sort.c:82-107 | the in-place recursion on strided sub-arrays applies the network to its line, touches nothing else, and consumes exactly the network's number of bits, in order |
| Waksman.NetworkPermutes | enclave/trusted/join/oblivious_sort.c:76-107 | every bit string yields a rearrangement |
| WaksmanReach.EveryPermutationReached | enclave/trusted/join/oblivious_sort.c:49-107 | what the switches of the network on 2^k records reach is exactly the rearrangements: nothing is lost with the omitted first output switch; the network has 2^k * k - 2^k + 1 switches |
| ObliviousSort.OSort | enclave/trusted/join/oblivious_sort.c:111-158 | padding, shuffling under any bits, sorting and truncating leaves a sorted rearrangement of the array |
| AksNetwork.PowerRoutes | baselines/batching/enclave/trusted/algorithms/aks_distribute.c:45-82 | a power-of-two block whose entries, read from the rotation offset on, are in order of destination is routed home |
| AksNetwork.InnerRoutes | baselines/batching/enclave/trusted/algorithms/aks_distribute.c:88-128 | a line of entries of any length is routed home |
| AksInPlace.PowerInPlace | baselines/batching/enclave/trusted/algorithms/aks_distribute.c:45-82 | the in-place recursion routes its block as the function on sequences does and leaves the rest of the buffer alone |
| AksInPlace.AksDistribute | baselines/batching/enclave/trusted/algorithms/aks_distribute.c:294-319 | for every n: entries in front with increasing destinations end at their destinations, every other slot holds padding |
| AksExternal.PowerLarge | baselines/batching/enclave/trusted/algorithms/aks_distribute.c:222-286 | the chunked recursion on host memory moves the entries of its block as the in-memory recursion does, up to the destination written into padding |
| AksExternal.InnerLarge | baselines/batching/enclave/trusted/algorithms/aks_distribute.c:155-216 | the same for blocks of any length |
| AksExternal.AksDistributeLarge | baselines/batching/enclave/trusted/algorithms/aks_distribute.c:289-291 | for every buffer of at least two entries the external run ends as the in-memory run does, and delivers what it delivers |
| NetworksAgree.QueueIsFrontLoaded | baselines/batching/enclave/trusted/algorithms/aks_distribute.c:302-313 | rows that the distance-halving network can take are entries that the AKS network can take |
| NetworksAgree.NetworksAgree | enclave/trusted/join/distribute.c:112-120 | from the same rows in front both networks end with the same row, or padding, in every slot |
| Conditions.OperatorBand | app/query/inequality_parser.cpp:81-156 | for every operator and deviation, the band accepts a pair exactly if the comparison holds and the values are in reach |
| Conditions.FarIsCutOff | app/query/inequality_parser.cpp:103-112 | an input on which a comparison holds and its band refuses |
| Conditions.NotEqualRefuses | app/query/inequality_parser.cpp:143-152 | the band of `!=` accepts nothing, also where the values differ |
| Conditions.OffsetsFitExactly | common/constants.h:33-37 | for every operator, which deviations keep both band ends, and the negated offsets, within 32 bits for every safe attribute |
| Conditions.ReverseAccepts | app/join/join_constraint.h:77-84 | the reversed constraint accepts exactly the swapped pairs; reversing twice changes nothing; valid bands stay valid |
| Conditions.MergeIntersects | app/query/condition_merger.cpp:4-66 | a merged band accepts what both accept; if merging one column pair fails, no pair is accepted by both |
| Conditions.MergeRightExactly | app/query/condition_merger.cpp:104-127 | for every pair of bands, the test of a merge is right exactly if the intersection is proper or misses neither end |
| Conditions.OperatorProperExactly | app/query/inequality_parser.cpp:93-152 | for every operator and deviation, whether the band of a single comparison is proper |
| Conditions.MergeIffValid | app/query/condition_merger.cpp:104-127 | with offsets in range, merging succeeds exactly if the intersection is a band that the join can work with, and the offsets stay in range |
| Conditions.MissingEndUnchecked | app/query/condition_merger.cpp:106-109 | an input on which an empty band with a missing end passes |
| Conditions.OperatorSoundExactly | app/query/inequality_parser.cpp:93-156 | for every operator, exactly which deviations yield a band in range that the join can work with |
| Conditions.MergeGroup | app/query/query_parser.cpp:161-183 | the loop over one group keeps the band, and reports the failures, of the left-to-right fold |
| Conditions.MergeJoinConditions | app/query/query_parser.cpp:142-189 | one constraint per column pair, the one its fold keeps; without a failed merge the result says what the conditions say for all values, a failed merge means that the conditions contradict each other |
| KeptBands.KeptBandExactly | app/query/query_parser.cpp:166-183 | for every list of bands on one column pair, the kept band says what they say exactly if any two have a difference in common or one of them is kept although it leaves nothing |
| KeptBands.KeptBandInRange | app/query/query_parser.cpp:166-183 | the same in the safe range, where only gaps leave nothing unnoticed |
| KeptBands.FailsExactly | app/query/query_parser.cpp:170-180 | in the safe range a merge fails exactly if two of the conditions cannot be merged with each other |
| KeptBands.SomeMergeFails | app/query/query_parser.cpp:158-185 | the same for all conditions of a query |
| KeptBands.HarmlessRows | app/query/query_parser.cpp:142-189 | where every column pair is harmless in this sense, the merged constraints say what the conditions say, even if merges failed |
| KeptBands.OrderMatters | app/query/query_parser.cpp:166-183 | three conditions that are kept right in one order and wrong in another |
| KeptBands.FailedMergeAccepts | app/query/query_parser.cpp:170-180 | an input on which the kept constraint accepts what the conditions refuse |
| Conditions.JoinConstraints | app/query/inequality_parser.cpp:81-156 | translation and merging together, for every list of comparisons |
| Permutations.SaturatingFactorial | app/join/join_tree_serializer.cpp:31-35 | exact up to 15!, 15! beyond |
| Permutations.NthPermutation | app/join/join_tree_serializer.cpp:41-52 | the erasing loop computes the unranking function, for lists of every length and every index below the factorial that its caller reduces it by |
| Permutations.RankOfUnrank | app/join/join_tree_serializer.cpp:37-52 | every index is the rank of its permutation |
| Permutations.UnrankOfRank | app/join/join_tree_serializer.cpp:37-52 | every permutation has an index |
| Permutations.UnrankAscends | app/join/join_tree_serializer.cpp:37-40 | a larger index gives a lexicographically later permutation |
| TreeVariants.DecodeReorders | app/join/join_tree_serializer.cpp:114-146 | every index below a root decodes to a tree with the children reordered at every node |
| TreeVariants.OrderingIndex | app/join/join_tree_serializer.cpp:114-146 | every such tree is decoded from an index below the product of the factorials, which it uses up |
| TreeVariants.DecodeInjective | app/join/join_tree_serializer.cpp:114-146 | different indices decode to different trees |
| JoinGraph.ColumnFoundExactly | app/join/join_tree_serializer.cpp:7-14 | a column is found exactly if its table lists the name, and then at the first place |
| SerializedTree.LinksAreConstraints | app/join/join_tree_serializer.cpp:82-112 | a property that does not change when a constraint is reversed holds of all links of the unrolled tree exactly if it holds of all constraints |
| SerializedTree.TreeColumnsExactly | app/join/join_tree_serializer.cpp:126-138 | the columns of all links are found exactly if every column that a constraint names is listed by the table it names |
| PostorderWalk.CollectPostorder | app/join/join_tree_serializer.cpp:68-151 | the recursion over visited set, node list and variant state marks exactly the subtree's tables, consumes the digits of the decoding and emits its post-order; false exactly if a link names a column that its table does not list |
| SerializedTree.SerializedTreeOk | app/join/join_tree_serializer.cpp:276-306 | the node array is a tree the join accepts: tables distinct, parents after children, root last, bands valid |
| SerializedTree.TreeIsConjunction | app/join/join_tree_serializer.cpp:88-112 | the edges of the unrolled tree hold exactly when all constraints do, through every reversal |
| VariantCount.ChildOrderings | app/join/join_tree_serializer.cpp:157-192 | the stack walk computes the number of orderings below a root modulo 2^64 |
| VariantShape.ComparedExactly | app/join/join_tree_serializer.cpp:204-205 | which counts survive the casts to int32_t and back to uint64_t |
| VariantShape.PicksOne | app/join/join_tree_serializer.cpp:246-249 | every number below the sum of the counts selects exactly one root and ordering |
| VariantShape.VariantsCorrespondExactly | app/join/join_tree_serializer.cpp:236-255 | numbers and orderings correspond one to one exactly if every count survives the casts |
| VariantShape.StarCountsShort | app/join/join_tree_serializer.cpp:204-205 | a table with 13 neighbours has 6227020800 orderings, of which 1932053504 are counted |
| UnrolledTrees.QueryVariantsExactly | app/join/join_tree_serializer.cpp:236-255 | the same exact condition for every query whose constraints form a spanning tree |
| Serializer.ShapeOf | app/join/join_tree_serializer.cpp:194-207 | one count per FROM table, as the casts leave it |
| Serializer.PickRoot | app/join/join_tree_serializer.cpp:242-255 | the loop stops at the root and the remaining number that the counts assign to the variant, or runs out exactly if the variant is not below their sum |
| VariantOrder.DecodeZero | app/join/join_tree_serializer.cpp:60-67 | index 0 keeps constraint order at every node |
| VariantOrder.UnrolledInOrder | app/join/join_tree_serializer.cpp:82-112 | in an unrolled tree the children of every table stand in the order of the constraints that join them to it |
| VariantOrder.FirstDigit | app/join/join_tree_serializer.cpp:114-119 | the first k! indices permute the root's k children in lexicographic order and leave everything below as it is |
| VariantOrder.NumbersAscend | app/join/join_tree_serializer.cpp:236-255 | a number is smaller than another exactly if it selects an earlier root, or below the same root an ordering with a smaller index |
| VariantOrder.HistoricalVariant | app/join/join_tree_serializer.cpp:236-242 | variant 0 selects the first FROM table's tree in constraint order, and nothing else, exactly if that root's count does not become 0 in the casts |
| VariantOrder.PostOrderOrdered | app/join/join_tree_serializer.cpp:121-151 | at every node of a tree the serialised records come child after child, and then the node's |
| VariantOrder.VariantZeroArray | app/join/join_tree_serializer.cpp:60-67 | variant 0 of a query is the post-order below the first FROM table with the children of every table in the order of the constraints that join them |
| Serializer.SerializeJoinTree | app/join/join_tree_serializer.cpp:219-309 | each outcome with its condition: no tables, a table not loaded and a variant out of range exactly then; otherwise a column not found, disconnected, or the array of the selected ordering |
| SpanningTree.Sparse | app/join/join_tree_serializer.cpp:82-112 | in a connected graph with one edge less than vertices, every set of vertices has at most one edge less than members inside |
| UnrolledTrees.TreesExist | app/join/join_tree_serializer.cpp:60-67 | a query over distinct tables, connected by one constraint less than there are tables, unrolls into a tree over all its tables from every root |
| UnrolledTrees.SerializeQuery | app/join/join_tree_serializer.cpp:219-309 | for such a query serialisation fails exactly for a variant beyond the number of variants, or a column that the table named with it does not list; otherwise the array holds each FROM table once and accepts what the constraints accept |
| VariantArrays.EveryTableOnce | app/join/join_tree_serializer.cpp:268-306 | a serialised array is a tree the join accepts with each FROM table exactly once |
| VariantArrays.ArrayIsConjunction | app/join/join_tree_serializer.cpp:276-306 | whatever root and orderings were picked, the bands of the array accept exactly the values that the constraints accept |
| VariantNumbers.ArrayDeterminesVariant | app/join/join_tree_serializer.cpp:236-255 | while the counts fit, two variants with the same array are the same variant |
| BatchCollector.Collector.Intern | baselines/batching/app/batch/ecall_batch_collector.cpp:47-80 | an entry gets one position, found by identity, and all others keep theirs |
| BatchCollector.Collector.AddPair | baselines/batching/app/batch/ecall_batch_collector.cpp:45-101 | collecting a pair, with or without an automatic flush, has the effect of applying it at once |
| BatchCollector.Collector.AddSingle | baselines/batching/app/batch/ecall_batch_collector.cpp:103-141 | the same for operations on one entry |
| BatchCollector.Collector.Flush | baselines/batching/app/batch/ecall_batch_collector.cpp:144-195 | after a flush the entries hold what direct application would have left, and the cache is empty |
| BatchCollector.BatchedLinearPass | baselines/batching/app/data_structures/table.cpp:278-295 | for every batch size overlapping adjacent pairs end as the left-to-right pass leaves them |
| BatchCollector.LinearPassScans | baselines/batching/app/data_structures/table.cpp:286-289 | that pass is a scan: each row ends as the first result of its pair, the second result is carried on |
| BatchCollector.BatchedParallelPass | baselines/batching/app/data_structures/table.cpp:297-316 | refused exactly if the tables differ in size; otherwise each pair of rows becomes the kernel's result on the rows as they were |
| BatchCollector.BatchedMap | baselines/batching/app/data_structures/table.cpp:252-276 | a new table with the kernel applied to every row; the old one is not touched |
| BatchCollector.BatchedDistancePass | baselines/batching/app/data_structures/table.cpp:224-245 | the entries end as the direct pass leaves them, last pair repeated |
| BatchCollector.SecondPair | baselines/batching/app/data_structures/table.cpp:236-239 | the repetition does nothing exactly if the kernel has settled the pair |
| BatchCollector.PassIsLoop | baselines/batching/app/data_structures/table.cpp:230-239 | it does nothing on every table exactly for idempotent kernels |
| BatchCollector.SwappedBack | baselines/batching/app/data_structures/table.cpp:230-239 | an input on which the repetition undoes the loop |
| BatchDistribute.SettledExactly | enclave/trusted/join/distribute.c:30-38 | when a second application of the distribute kernel changes nothing |
| BatchDistribute.PaddingSettles | enclave/trusted/join/distribute.c:30-38 | padding in the second slot settles the pair |
| BatchDistribute.NotIdempotent | enclave/trusted/join/distribute.c:30-38 | two rows that change places twice |
| BatchDistribute.DistancePassSpreads | baselines/batching/app/data_structures/table.cpp:224-245 | over a queue of rows the repetition does nothing and the pass takes them one distance further |
| MinHeap.HeapSort | baselines/batching/enclave/trusted/algorithms/min_heap.c:144-215 | a sorted permutation, in place |
| MinHeap.Heap.Push | baselines/batching/enclave/trusted/algorithms/min_heap.c:75-89 | adds the node, or drops it exactly if the heap is full |
| MinHeap.Heap.Pop | baselines/batching/enclave/trusted/algorithms/min_heap.c:91-112 | removes a least node, or reports that there is none |
| KWayMerge.RunStore.Refill | baselines/batching/app/algorithms/merge_sort_manager.cpp:32-69 | the next stretch of the run behind the buffer, empty only at its end; other runs keep their positions |
| KWayMerge.KWayMergeInit | baselines/batching/enclave/trusted/algorithms/k_way_merge.c:36-104 | refused exactly for no run or too many; otherwise a merge that has returned nothing yet |
| KWayMerge.MergeState.Process | baselines/batching/enclave/trusted/algorithms/k_way_merge.c:110-186 | for every capacity: what was returned so far is sorted and is what was taken from the runs in order; a call that is not the last fills its output |
| MergeSort.Drain | baselines/batching/app/algorithms/merge_sort_manager.cpp:280-305 | repeated calls end, with the sorted elements of all runs |
| MergeSort.MergeRound | baselines/batching/app/algorithms/merge_sort_manager.cpp:198-224 | a round keeps all elements in sorted runs and leaves ceil(r / 8) of r runs |
| MergeSort.MergeRuns | baselines/batching/app/algorithms/merge_sort_manager.cpp:183-238 | the rounds end with one sorted run of all elements |
| MergeSort.Sort | baselines/batching/app/algorithms/merge_sort_manager.cpp:71-105 | a sorted permutation of the table for every run size and buffer size |
| RankOrder.SortedByRank | baselines/batching/common/comparator_convention.h:6-22 | on the rows of a table every strict weak order is an order by rank, so a rearrangement sorted by rank is one that the comparator calls sorted, and conversely |
| PlanGraph.IsConnected | baselines/obliviator/join_planner.py:106-117 | the search from one member reaches all exactly if no split of the set is without an edge |
| Planner.SplitOfPlan | baselines/obliviator/join_planner.py:132-139 | the tests on a split reject no plan: both halves of a plan are connected and joinable |
| Planner.Build | baselines/obliviator/join_planner.py:122-143 | lists exactly the plans whose left children hold the least table, each once |
| PlanEnumeration.EnumeratePlans | baselines/obliviator/join_planner.py:91-152 | a non-empty list of these plans for all tables, or an error exactly if the graph is torn or the plans are too many |
| PlanEnumeration.OneOfEachClass | baselines/obliviator/join_planner.py:91-100 | every connected binary plan is in the list exactly once up to swapping children, and nothing else is |
| PlanChain.ChainHasCatalan | baselines/obliviator/join_planner.py:97-99 | a chain of n tables has Catalan(n - 1) plans |
| LeftDeep.LeftDeepPlan | baselines/obliviator/join_planner.py:155-187 | the plan that starts with the ends of the first condition and goes on, table by table, with the missing end of the first condition in SQL order that has one end joined, or the ends of the first that has none; over exactly the tables of the conditions, a valid plan exactly if the conditions connect them |
| LeftDeep.FollowsUnique | baselines/obliviator/join_planner.py:155-187 | this rule leaves no choice: one plan of every size follows it |
| LeftDeep.RightEndNext | baselines/obliviator/join_planner.py:180-186 | a condition with neither end joined adds its left end and then its right one |
| LeftDeep.BranchInOrder | baselines/obliviator/join_planner.py:155-187 | for a path with a branch, the plan that takes the branch's conditions in SQL order |
| LeftDeep.LeftDeepIsListed | baselines/obliviator/join_planner.py:155-187 | such a plan is among the enumerated ones up to swapping |
| PlanCost.SameCost | baselines/obliviator/join_planner.py:194-203 | plans that differ by swapping children cost the same |
| PlanCost.OnlyRootIsFree | baselines/obliviator/join_planner.py:194-203 | comparing table sets leaves out the root and nothing else |
| PlanCost.JoinsListed | baselines/obliviator/join_planner.py:84-88 | the listed joins are exactly the plan's own, if it is one, and those of the plans below it |
| PlanCost.JoinsOnce | baselines/obliviator/join_planner.py:84-88 | no two joins of a plan make the same tables |
| PlanCost.CostExactly | baselines/obliviator/join_planner.py:194-203 | the cost is the summed size over the joins below the root, however they are listed, each once |
| PlanCost.Optimal | baselines/obliviator/join_planner.py:213-216 | the chosen plan is cheapest among all connected binary plans, listed or not, and the first of the cheapest in the list |
| PlanCost.PayloadIsWidest | baselines/obliviator/join_planner.py:281-297 | the payload bounds the width of every join input of the plan and is reached by one |
| PlanCost.WidthOfTables | baselines/obliviator/join_planner.py:281-286 | the width of a plan's rows is the sum of its tables' widths and a table delimiter for every join |
| PlanCost.WidthIsPacked | baselines/obliviator/join_planner.py:224-231 | packed in any order of its tables, a row is no wider than that, and as wide exactly if every table's part is as wide as its widest |
| BandCardinality.WindowSums | scripts/higgs_common.py:72-84 | prefix sums and bisection give for every time the weights strictly inside the band below it |
| BandCardinality.UnitBandEmpty | scripts/higgs_common.py:72-84 | both ends of the band are open: a band of one second holds nothing |
| BandCardinality.ValueCounts | scripts/higgs_common.py:91-116 | the value of a tree of bands is the number of its tuples, however they are listed |
| BandCardinality.ChainOutput | scripts/higgs_common.py:91-100 | that number for a chain with at least one hop, 0 without hops |
| BandCardinality.BtreeOutput | scripts/higgs_common.py:103-116 | that number for the tree of the first e edges |
| BandCardinality.BreadthFirst | scripts/higgs_common.py:87-88 | edge i of the list leads from (i + 2) / 2 to i + 2 |
| BandCardinality.ChildrenAreDoubles | scripts/higgs_common.py:106-108 | among the first e edges, below a node are its double and the next number, as far as they do not exceed e + 1 |
| BandSearch.NoHops | scripts/higgs_common.py:91-100 | a chain without a hop has a tuple for every row |
| BandSearch.ChainCountsExactly | scripts/higgs_common.py:95-100 | what is computed for a chain is its number of tuples exactly if it has a hop or there are no rows |
| BandSearch.NoHopUncounted | scripts/higgs_common.py:95-100 | one row and no hop: 0 is computed, one tuple exists |
| BandSearch.CardMonotone | scripts/higgs_common.py:119-122 | wider bands never have fewer tuples |
| BandSearch.SpanIsEnough | scripts/higgs_common.py:125 | the default limit misses no target: beyond the span of the times nothing is added |
| BandSearch.SearchWidth | scripts/higgs_common.py:119-134 | the least width up to the limit that reaches the target, the limit if none does, 0 without times |

## Left out

- AksExternal.Chunks: the three buffers have an arbitrary size of at least 2, not the constant 512.
- ObliviousSort.OSort: the element-size test and failed allocations are not modelled; records are values, not byte strings.
- Serializer.SerializeJoinTree: graphs with cycles, with several constraints between two tables or with constraints that name tables outside FROM are excluded by the hypothesis on the unrolled trees.
- Serializer.PickRoot: the message of the out-of-range error, which counts the variants once more, is not modelled.
- BatchCollector.Collector.Flush: a failing dispatcher call and the statistics counters are not modelled.
- BatchCollector.BatchedDistancePass: a distance beyond the number of entries, where the source's unsigned subtraction wraps, is a precondition.
- KWayMerge.MergeState.Process: calls before initialisation and null pointers are not modelled; the state is an object instead of a global.
- MergeSort.Sort: the order is a rank on records, which RankOrder.SortedByRank shows to be no restriction.
- Planner.Build: the memo table is not modelled, since the function is pure.
- LeftDeep.LeftDeepPlan: conditions that join a table with itself and an empty list of conditions are preconditions.
- BandCardinality.WindowSums: widths below 1, where the two bisected positions cross, are a precondition.
- QueryAnswer.RunQuery: takes constraints that the join can work with, so a query with `!=`, whose band is reversed, is outside of it.
- Empty or reversed bands in the join tree, and tables shared by two nodes.
- What the join computes once an int32 counter has overflowed.
- Encryption, enclave calls, host buffers as byte arrays, timing and memory tracking; the bit stream's packing into bytes.
- The distribution of the shuffle: random switches are shown to reach every rearrangement, not to do so with equal probability.
- Rows are records with a sequence of attributes; strides, narrow layouts and the flat buffer behind all tables are not modelled, so each table is an array of its own.
- The iteration order of grouped conditions, which follows the textual key in the source and is arbitrary here; keys are pairs of columns.
- Fields that these phases never read, and the root's join columns, which are -1 in the source and 0 where the join's node record keeps them.
- The SQL tokenizer and parser, CSV files, table statistics, the drivers and the batching engine's own four phases.
- `unpack_row` and the column counts of `pack_row`, `count_join_tree_variants` as a sum of its own, and the other plan modes: easy members.
