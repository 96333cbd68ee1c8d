# Verified models of the coursework cores

The repository is a collection of university courseworks. This project models the algorithms and protocols at their
centre and proves what they are for. Each core is a module (or a few), independent of the others:

| Modules | Core |
|---|---|
| `Matrices`, `Strassen` | Strassen multiplication that accumulates into the quadrants of its target, with windows onto shared storage as operands and one scratch matrix for everything else |
| `SpanningTrees`, `Kruskal` | Kruskal's algorithm over weighted relabelling sets: the tree is a lightest one, and few vertices are relabelled |
| `WellSeparated` | the well-separated pair decomposition of a quadtree |
| `QSort` | the `QSORT` macro: iterative median-of-three quicksort with a fixed stack, then insertion sort behind a sentinel |
| `RobinHood`, `DuplicateKeys`, `Rows`, `ChainedTable`, `JoinOperators` | the Robin Hood multimap, the chained multimap and the joins built on them |
| `Columns`, `DepGraph`, `Links`, `Batch`, `Stages` | range selections, and batches of operators run stage by stage in dependency order |
| `Multiselect`, `ThreadPool` | the chunked concurrent selection, and the thread pool |
| `BTreeLevels`, `BTree` | the bulk-loaded B+tree against plain binary search |
| `Paging`, `PtIter`, `FreePageTable` | x86-64 page tables, and the iterator that lists page-table pages in an order safe for freeing them |
| `Translations`, `Mapping`, `VmIter` | the iterator that walks virtual addresses incrementally and installs mappings |
| `Io61` | the single-window file cache and the unbuffered file it must agree with |

`Counting`, `Vectors`, `Hashing`, `Numbers`, `Sequences` and `Options` hold small shared definitions.

Objects whose methods update their fields are classes, loops that work in place on an array keep the array, and the
three concurrent cores are state machines over the steps their threads can take, so that a theorem about every run is a
theorem about every interleaving.

## What the results rest on

* **Strassen.** Cells outside the storage read as 0 and are not written, which is what the padding is meant to do.
  The bounds test as written multiplies the other index than the access does (`CS124/progset2 copy/strassen.cpp:71-77`).
  `WidenedReads` and `PaddedRunReads` say exactly when that makes no difference. Entries are mathematical integers.
* **Kruskal.** Weights are reals, the priority queue hands out some lightest edge, and the edge set is connected. The
  maps `set_ids` and `sets` are indexed by the vertices 0 to V-1.
* **QSORT.** The comparison is a strict weak order, as the header asks; the repository's own callers pass a difference of
  keys, which is none. The length is a 32-bit unsigned number.
* **Hash tables.** Everything holds for every hash function. Probing goes round the ring without the 32-bit wrap of the
  probe counter, allocation succeeds, and dividing a capacity by the load factor 0.2 multiplies it by five.
* **Erasing.** `Erase` always removes every copy of its key and stores everything else as before. Whether lookups of the
  other keys still find all of it depends on the table alone, and `GapsClose` says exactly when; a key stored at most
  once always passes. `ErasingADuplicateHidesAnother` is a run, with `hash_int`, in which it fails.
* **hash_join.** When exactly one side is empty the code takes a remainder by zero; `HashJoin` returns false in exactly
  these cases and is right in all others.
* **Batches.** A name that is no variable by then is found among the columns, which are there. A handle may be used
  again as long as that does not delete a variable that the graph still refers to; `BuildGraph` returns false in exactly
  the other cases (`SafeHandles`). `Failed` stands for the end of the process at an operator's assertion. A position
  between the size and the capacity of a vector reads what the memory holds there. A batch stores the sum of a column,
  a `long long`, in an `int`: it is right exactly when it fits (`StoredSum`).
* **B+tree.** `LoadBtree` fails on exactly the sizes at which a level would write past a node; `OneLeafTooMany` is one.
  The smallest and largest keys of a node go through unsigned arithmetic, so with keys of both signs a node may record a
  largest key that is too small, and such a key may become a separator. The tree is right for every key exactly when
  none does (`SeparatorsFit`), as for keys of one sign (`FitsEasily`). In every other tree a single search is wrong
  exactly when it is misled: `SkipTo` is where the outermost wrong separator ends and `NegativeHigh` what it says, both
  known from the array and the fanouts, and the search for a key from `NegativeHigh` on that is smaller than the second
  last key before `SkipTo` ends too far on (`Misled`). `MixedSignsMislead` is such a search. With repeated keys `Find`
  returns the first occurrence exactly when, besides, no leaf boundary cuts a run of the key (`CutRun`) and the second
  last key before `SkipTo` is not the one sought (`Overshoots`); `FirstOccurrenceMissed` is a search where a run is cut.
* **Thread pool.** `wait_thread_pool` is served for one caller at a time: `BlockedExactlyBeyondOne` says that this bound
  is exact for every number of threads.
* **Page tables.** The format is that of 4-level paging in the Intel SDM, volume 3A, section 4.5: nodes of 512 entries
  in a heap of pages. Indexes and offsets are quotients and remainders.
* **io61.** The files are regular, reads of a regular file are not short, and seeks stay within the file: `Seek` leaves
  the cache usable exactly when they do.

## Model

| member | source | states |
|---|---|---|
| `Matrices.SevenCells` | CS124/progset2 copy/strassen.cpp:233-274 | each cell of the seven products is a stated combination of plain block products |
| `Matrices.SevenProductsSuffice` | CS124/progset2 copy/strassen.cpp:233-274 | adding the seven products into cleared quadrants, with the signs of the code, leaves the four blocks of the product |
| `Matrices.BlockOfProduct` | CS124/progset2 copy/strassen.cpp:208-221 | a block of the product of two matrices is the sum of two products of blocks |
| `Matrices.ProductOfOne` | CS124/progset2 copy/strassen.cpp:177-188 | where a row of the left factor, or a column of the right one, holds a single entry, the cell of the product is the product of two entries |
| `Matrices.ProductWithIdentity` | CS124/progset2 copy/strassen.cpp:177-188 | multiplying by the identity on either side leaves a matrix alone |
| `Matrices.ProductIsAdditive` | CS124/progset2 copy/strassen.cpp:177-188 | the product is additive in either factor |
| `Matrices.BlocksDetermine` | CS124/progset2 copy/strassen.cpp:97-105 | two square matrices of even side with the same four blocks are equal |
| `Strassen.CellsDistinct` | CS124/progset2 copy/strassen.cpp:75-78 | different row and column pairs are different cells of the storage |
| `Strassen.SubContents` | CS124/progset2 copy/strassen.cpp:97-105 | a quadrant of a window is a window onto that block of its contents |
| `Strassen.OwnSubsApart` | CS124/progset2 copy/strassen.cpp:97-105 | two different quadrants of one window share no cell |
| `Strassen.SubsApart` | CS124/progset2 copy/strassen.cpp:97-105 | quadrants of windows that share no cell share none |
| `Strassen.Clear` | CS124/progset2 copy/strassen.cpp:112-118 | every cell of the window becomes 0 and windows that share no cell with it are unchanged |
| `Strassen.Sum` | CS124/progset2 copy/strassen.cpp:155-163 | the target becomes the cell-wise sum, also when it is one of the operands; other windows are unchanged |
| `Strassen.Subtract` | CS124/progset2 copy/strassen.cpp:167-175 | the target becomes the cell-wise difference, also when it is one of the operands; other windows are unchanged |
| `Strassen.LinearMul` | CS124/progset2 copy/strassen.cpp:177-188 | the target gains the product of the operands; other windows are unchanged |
| `Strassen.LayoutSplits` | CS124/progset2 copy/strassen.cpp:208-231 | one level down, the product buffer, the recursive scratch and the two sum buffers are disjoint from each other and from the operands and the target |
| `Strassen.SevenSteps` | CS124/progset2 copy/strassen.cpp:233-274 | the seven rounds of sums, recursive product and accumulation leave the seven products added into the quadrants |
| `Strassen.Recurse` | CS124/progset2 copy/strassen.cpp:198-275 | for every cutoff, depth and prior contents the target becomes the product of the operands, the operands keep their contents, and no cell outside the target and scratch changes |
| `Strassen.StrassenMul` | CS124/progset2 copy/strassen.cpp:190-278 | the leading block of the target becomes the naive product of the inputs, which are unchanged; by an identity operand the other one; and in the storage itself, where a row of the left operand holds a single entry, that entry times a row of the right operand |
| `Strassen.DotOfPadded` | CS124/progset2 copy/strassen.cpp:193-194 | inner products of operands padded with zeros are the inner products of the operands |
| `Strassen.WidenedReads` | CS124/progset2 copy/strassen.cpp:71-77 | a widened operand reads as meant through the bounds test as written exactly when it is not widened or has at most one cell |
| `Strassen.PaddedRunReads` | CS124/progset2 copy/strassen.cpp:328-334 | a run of the program reads its operands as meant exactly when halving the side meets no odd side above the cutoff, so that nothing is padded |
| `Strassen.PaddingSize` | CS124/progset2 copy/strassen.cpp:50-59 | the halving loop computes the size that `PaddingIsLeast` is about |
| `Strassen.PaddingIsLeast` | CS124/progset2 copy/strassen.cpp:50-59 | the padded side is the least one, not smaller than the input, whose halving meets no odd side above the cutoff |
| `SpanningTrees.ConnectedMeansReachable` | CS124/progset1 copy/graphs.cpp:52-70 | every cut is crossed exactly when there is a walk between any two vertices |
| `SpanningTrees.FindExchange` | CS124/progset1 copy/graphs.cpp:59-68 | some tree edge crosses a given cut and separates the ends of an edge that crosses it |
| `SpanningTrees.Exchange` | CS124/progset1 copy/graphs.cpp:59-68 | swapping that edge for the other gives a spanning tree, with the weight changed by the difference |
| `SpanningTrees.CutProperty` | CS124/progset1 copy/graphs.cpp:59-68 | a lightest edge across a cut no accepted edge crosses keeps the accepted edges extendable to a lightest spanning tree |
| `SpanningTrees.SpanningTreeExists` | CS124/progset1 copy/graphs.cpp:51-52 | a connected edge set contains a spanning tree |
| `SpanningTrees.PromisingAndConnected` | CS124/progset1 copy/graphs.cpp:59-69 | an extendable forest that connects everything is a spanning tree, and none is lighter |
| `SpanningTrees.UniformWeight` | CS124/progset1 copy/graphs.cpp:53-67 | edges that all weigh w weigh w times their number together |
| `Kruskal.QueueNotEmpty` | CS124/progset1 copy/graphs.cpp:59-61 | while some part is not everything the queue still holds an edge that leaves it |
| `Kruskal.OnePartConnects` | CS124/progset1 copy/graphs.cpp:59 | when one part holds every vertex the accepted edges connect everything |
| `Kruskal.MergeKeepsPartition` | CS124/progset1 copy/graphs.cpp:74-85 | labels and sets still describe the same partition after a union |
| `Kruskal.MergeKeepsPaid` | CS124/progset1 copy/graphs.cpp:75-83 | a vertex relabelled k times stays in a set of at least 2^k vertices |
| `Kruskal.Log2Is` | CS124/progset1 copy/graphs.cpp:75-83 | the logarithm of the bound is the largest k with 2^k at most V |
| `Kruskal.JoinCounts` | CS124/progset1 copy/graphs.cpp:74-85 | a union takes one set away for the edge that it adds: the edges and the sets are V together |
| `Kruskal.Graph.Union` | CS124/progset1 copy/graphs.cpp:74-85 | the smaller set is relabelled and joined to the larger, and labels and sets still agree |
| `Kruskal.Graph.Relabel` | CS124/progset1 copy/graphs.cpp:81-83 | exactly the members of one set get the new label, each at the price of one move |
| `Kruskal.Graph.TakeEdge` | CS124/progset1 copy/graphs.cpp:59-68 | one round keeps the partition, the link between labels and accepted edges, and extendability |
| `Kruskal.Graph.Kruskals` | CS124/progset1 copy/graphs.cpp:52-70 | the accepted edges form a spanning tree of V - 1 edges, the returned sum is its weight and no spanning tree is lighter; if all edges weigh w it is (V - 1) * w, and 0 without edges; a vertex relabelled k times means 2^k is at most V, and all relabels together are at most V log2(V) |
| `WellSeparated.WsPairs` | CS124/progset1 copy/graphs.cpp:256-300 | the recursion ends and covers every two points across the two nodes exactly once more, and no other points; every pair pushed is separated and disjoint |
| `WellSeparated.WithinNode` | CS124/progset1 copy/graphs.cpp:267-283 | a node against itself covers every two of its points exactly once |
| `WellSeparated.AcrossNodes` | CS124/progset1 copy/graphs.cpp:286-299 | the children of one node against another node cover every two points across the nodes exactly once |
| `WellSeparated.Decompose` | CS124/progset1 copy/graphs.cpp:331-333 | over the whole tree every two points are covered by exactly one pair, other points by none, and every pair is separated |
| `WellSeparated.TallyIsExactlyOne` | CS124/progset1 copy/graphs.cpp:285 | a tally of one means that one listed pair covers the two points and no other does |
| `QSort.SwapKeepsPending` | CS165/cs165-project copy/src/include/qsort.h:93 | exchanging elements of one unfinished segment disturbs nothing already known about the others |
| `QSort.MedianOfThree` | CS165/cs165-project copy/src/include/qsort.h:172-180 | first, middle and last elements end up in order, and the array is a permutation |
| `QSort.ScanUp` | CS165/cs165-project copy/src/include/qsort.h:189-190 | the unguarded scan stops inside the segment at an element not below the pivot |
| `QSort.ScanDown` | CS165/cs165-project copy/src/include/qsort.h:192-193 | the unguarded scan stops inside the segment at an element not above the pivot |
| `QSort.CollapseWalls` | CS165/cs165-project copy/src/include/qsort.h:182-208 | the segment is split around the pivot, at most one element between the parts, and the array is a permutation |
| `QSort.SplitKeepsPending` | CS165/cs165-project copy/src/include/qsort.h:210-233 | replacing a segment by the large parts of its split keeps everything else in order |
| `QSort.StackSuffices` | CS165/cs165-project copy/src/include/qsort.h:106-111 | for every length below 2^32 no more than 30 segments are unfinished at once |
| `QSort.NextSegment` | CS165/cs165-project copy/src/include/qsort.h:215-233 | the larger part is pushed, a small one dropped or the stack popped, inside the fixed stack |
| `QSort.QuickPhase` | CS165/cs165-project copy/src/include/qsort.h:154-235 | afterwards elements more than four places apart are in order, and the array is a permutation |
| `QSort.FindSentinel` | CS165/cs165-project copy/src/include/qsort.h:249-259 | the smallest of the first five elements is a smallest of all |
| `QSort.FindPlace` | CS165/cs165-project copy/src/include/qsort.h:268-273 | the unguarded search stops at the place where the element belongs |
| `QSort.InsertionPhase` | CS165/cs165-project copy/src/include/qsort.h:267-286 | the array becomes sorted and stays a permutation |
| `QSort.Sort` | CS165/cs165-project copy/src/include/qsort.h:143-288 | any array of fewer than 2^32 elements becomes a sorted permutation of itself under any strict weak order |
| `RobinHood.ProbeBound` | CS165/cs165-project copy/src/join_hashtable.c:77-85 | from an empty slot on, distances from home grow by at most one per slot |
| `RobinHood.Place` | CS165/cs165-project copy/src/join_hashtable.c:78-87 | writing the entry in hand over one that is closer to home keeps the ring invariant |
| `RobinHood.SwapOut` | CS165/cs165-project copy/src/join_hashtable.c:79-84 | the entry that gave way can be tried at the next slot at its true distance |
| `RobinHood.PutKeeps` | CS165/cs165-project copy/src/join_hashtable.c:70-87 | the slots the probe leaves, as a function of the slots before, form an intact ring with exactly one more copy of the pair |
| `RobinHood.ProbeComplete` | CS165/cs165-project copy/src/join_hashtable.c:112-119 | a probe that reached an empty slot has passed every entry of its key |
| `RobinHood.Table.Insert` | CS165/cs165-project copy/src/join_hashtable.c:70-87 | the slots become those of `AfterPut`: the probe ends, the ring invariant holds and the table holds one more copy of the pair, nothing else changed |
| `RobinHood.Table.Put` | CS165/cs165-project copy/src/join_hashtable.c:69-96 | the same through growth of the table, to ten times the slots and twice as many as its target |
| `RobinHood.Table.Reallocate` | CS165/cs165-project copy/src/join_hashtable.c:48-65 | the larger table holds exactly the pairs of the old one |
| `RobinHood.Table.FastGet` | CS165/cs165-project copy/src/join_hashtable.c:107-120 | the result is exactly the multiset of values a probe meets before an empty slot, which in a valid table is all that is stored under the key |
| `RobinHood.ShiftBack` | CS165/cs165-project copy/src/join_hashtable.c:136-140 | moving the next entry back into the hole moves the hole and keeps the ring around it |
| `RobinHood.Table.Erase` | CS165/cs165-project copy/src/join_hashtable.c:122-146 | for any valid table every copy of the key is removed and every other pair stored as often as before; the ring invariant holds afterwards, and likewise every lookup finds all that is stored, exactly when the gaps close |
| `RobinHood.AtMostOnceCloses` | CS165/cs165-project copy/src/join_hashtable.c:134-140 | the gaps close for a key that is stored at most once |
| `RobinHood.StepKeeps` | CS165/cs165-project copy/src/join_hashtable.c:131-145 | one round of the pass keeps what the pass knows: the slots so far hold the same pairs but for the key, and the ring is intact around the hole exactly as long as no entry was left behind a wide one |
| `RobinHood.EraseEnd` | CS165/cs165-project copy/src/join_hashtable.c:131-145 | at the end of the pass the ring is intact and every lookup right if the gaps closed, and otherwise neither |
| `RobinHood.HiddenEntry` | CS165/cs165-project copy/src/join_hashtable.c:112-119 | a lookup does not find an entry that is away from home right behind an empty slot |
| `Hashing.OneMeetsFour` | CS165/cs165-project copy/src/join_hashtable.c:12-16 | `hash_int` sends keys 1 and 4 to the same of ten slots |
| `DuplicateKeys.DuplicatesBreakTheRing` | CS165/cs165-project copy/src/join_hashtable.c:134-140 | in the table of ten slots that putting key 1 twice and key 4 once leaves, the gaps do not close |
| `DuplicateKeys.ErasingADuplicateHidesAnother` | CS165/cs165-project copy/src/join_hashtable.c:122-146 | in that run the value under key 4 is found before erasing key 1, and nothing is found under key 4 after it |
| `ChainedTable.Table.Put` | CS165/cs165-project copy/src/join_hashtable.c:234-265 | the values under the key get the new one at the end, through growth, and other keys keep theirs |
| `ChainedTable.Table.Reallocate` | CS165/cs165-project copy/src/join_hashtable.c:189-232 | moving all chains into more buckets keeps the values under every key and their order |
| `ChainedTable.AppendedLookup` | CS165/cs165-project copy/src/join_hashtable.c:202-222 | appending a chain entry by entry appends each key's values in order |
| `ChainedTable.Table.FastGet` | CS165/cs165-project copy/src/join_hashtable.c:276-291 | the result is the values under the key in insertion order |
| `Rows.JoinCountMirror` | CS165/cs165-project copy/src/db_internals.c:179-183 | joining the other way round gives the same pairs, mirrored |
| `Rows.JoinCountIs` | CS165/cs165-project copy/src/db_internals.c:184-215 | the join count is the number of pairs of rows, one on each side, with equal values and the two positions |
| `Rows.PairCountIs` | CS165/cs165-project copy/src/db_internals.c:184-215 | the pair count is the number of indexes at which the two positions stand |
| `JoinOperators.NestedLoopJoin` | CS165/cs165-project copy/src/db_internals.c:176-221 | the result gains each pair of positions exactly as often as there are equal values fetched from them, in the caller's orientation |
| `JoinOperators.HashJoin` | CS165/cs165-project copy/src/db_internals.c:224-257 | the same multiset of pairs, for any hash function, and a division by zero exactly when one side is empty and the other is not |
| `JoinOperators.GraceHashJoin` | CS165/cs165-project copy/src/db_internals.c:335-391 | the same multiset of pairs, for any hash function; the assertion that the two capacities are equal never fails |
| `JoinOperators.BuildChained` | CS165/cs165-project copy/src/db_internals.c:344-361 | a table sized for its entries never grows and holds exactly the rows |
| `Columns.OpenEndsLoseTheExtremes` | CS165/cs165-project copy/src/multiselect.c:20-36 | an open end of a range admits everything but the largest int above and the smallest int below |
| `Columns.SelectedExactly` | CS165/cs165-project copy/src/multiselect.c:39-56 | a selection lists exactly the chosen positions, ascending |
| `Columns.SelectedComplement` | CS165/cs165-project copy/src/multiselect.c:41-47 | the inverse selection is the complement |
| `Columns.SelectedSplit` | CS165/cs165-project copy/src/multiselect.c:39-56 | selecting adjoining stretches one after the other is selecting the whole |
| `Columns.InternalSelect` | CS165/cs165-project copy/src/multiselect.c:39-56 | the vector grows by the selection of the stretch |
| `Columns.SelectRange` | CS165/cs165-project copy/src/db_internals.c:15-26 | the vector grows by the selection of the whole column |
| `Columns.Fetch` | CS165/cs165-project copy/src/db_internals.c:44-52 | the result is the column read through the selection |
| `Columns.Reselect` | CS165/cs165-project copy/src/db_internals.c:29-41 | the vector grows by those positions whose fetched value passes |
| `Columns.ReselectIntersects` | CS165/cs165-project copy/src/db_internals.c:15-52 | select, fetch and reselect together are one selection by both conditions |
| `Links.MinOf` | CS165/cs165-project copy/src/db_internals.c:119-128 | the smallest value, or INT_MAX if none is smaller |
| `Links.MaxOf` | CS165/cs165-project copy/src/db_internals.c:131-140 | the largest value, or -INT_MAX if none is larger |
| `Links.ExecuteFullLink` | CS165/cs165-project copy/src/batch.c:222-275 | the operators' loops leave what `EvaluateDoes` says operator by operator, reads up to the capacity included, and fail exactly on the failing operands |
| `DepGraph.EvaluateDoes` | CS165/cs165-project copy/src/batch.c:222-275 | operator by operator what its output is: ascending positions kept, values read through a selection, cell-wise sums and differences, least and greatest values, the last partial sum (for SUM, its low 32 bits), and a failure in exactly the failing cases |
| `DepGraph.TotalIsSum` | CS165/cs165-project copy/src/db_internals.c:143-149 | the total of nothing is 0, of one number the number, and of two columns the sum of their totals |
| `DepGraph.StoredSum` | CS165/cs165-project copy/src/batch.c:255-258 | the sum a batch stores is the sum exactly when that fits an int |
| `DepGraph.NoLongerPath` | CS165/cs165-project copy/src/batch.c:37-80 | no dependency path to a variable has more steps than its depth |
| `DepGraph.LongestPath` | CS165/cs165-project copy/src/batch.c:37-80 | some dependency path has exactly that many |
| `DepGraph.MeaningKept` | CS165/cs165-project copy/src/batch.c:82-92 | adding variables changes the meaning of no earlier one |
| `Batch.Graph.CalculateDepth` | CS165/cs165-project copy/src/batch.c:37-80 | the depth becomes the length of the longest dependency path, and other depths stay or become right |
| `Batch.Graph.AddVar` | CS165/cs165-project copy/src/batch.c:94-131 | the member that a name stands for is found, or added as an input, and the graph still represents the operators so far |
| `Batch.Graph.AddOperator` | CS165/cs165-project copy/src/batch.c:133-185 | the graph then represents the operators so far and this one, unless creating the variable would delete one that the graph has, and it says exactly when; without a handle the graph is unchanged |
| `Batch.BuildGraph` | CS165/cs165-project copy/src/batch.c:133-191 | the graph of a batch represents all its operators, and it is built exactly when no handle names a variable that the batch has already used |
| `Batch.ExecuteNoHeuristic` | CS165/cs165-project copy/src/batch.c:454-461 | running the links in list order leaves in every variable what it means |
| `Batch.LastWriterDecides` | CS165/cs165-project copy/src/batch.c:133-185 | a name means what the operator that writes it last does with what its operands stood for before |
| `Batch.Insert` | CS165/cs165-project copy/src/batch.c:284-293 | the variable moves to the place below the deeper variables before it, and these move up by one |
| `Batch.InsertionUnseen` | CS165/cs165-project copy/src/batch.c:284-293 | such a move changes the order of no two variables of equal depth |
| `Batch.SortDepGraph` | CS165/cs165-project copy/src/batch.c:280-298 | the list is sorted by depth, and at each depth it is the list it was |
| `Stages.SortedIsDepthOrder` | CS165/cs165-project copy/src/batch.c:280-298 | the sorted list holds every variable once, by depth |
| `Stages.OperandsComeFirst` | CS165/cs165-project copy/src/batch.c:280-298 | no link stands before a variable it uses |
| `Stages.ShallowerIsReady` | CS165/cs165-project copy/src/batch.c:300-330 | in every reachable state variables shallower than the current stage hold their final values |
| `Stages.StepKeeps` | CS165/cs165-project copy/src/batch.c:300-330 | every step of the dispatcher and of the links keeps the invariant |
| `Stages.EveryRunAgreesWithProgramOrder` | CS165/cs165-project copy/src/batch.c:300-330 | however the reads and writes within a stage interleave, a finished run leaves what program order leaves |
| `Stages.EveryRunComputesTheBatch` | CS165/cs165-project copy/src/batch.c:300-330 | name by name, a finished run leaves in what the name stands for, and so in every handle, what running the operators in the order given means |
| `Stages.PlanBatch` | CS165/cs165-project copy/src/batch.c:133-330 | from the operators to the sorted list: exactly when no handle names a variable that the batch has already used, the plan is made, and every finished run of it leaves in every handle what running the operators in the order given means |
| `Stages.StepProgresses` | CS165/cs165-project copy/src/batch.c:300-330 | every step but a partial write brings the end of the run closer |
| `Stages.NeverStuck` | CS165/cs165-project copy/src/batch.c:300-330 | until the run is finished some step other than a partial write can be taken |
| `Multiselect.PartitionColumn` | CS165/cs165-project copy/src/multiselect.c:219-244 | the chunks tile the column exactly, none is empty unless the column is, and all but the last hold at least 128 Ki entries or the whole column, and at least one 256th of it |
| `Multiselect.JoinedIsSelected` | CS165/cs165-project copy/src/multiselect.c:90-93 | the intermediate results joined in chunk order are the selection over the chunks |
| `Multiselect.NothingUsedAfterFree` | CS165/cs165-project copy/src/multiselect.c:62-74 | no step of any task uses the shared arrays, or intermediate results, after they were freed |
| `Multiselect.StepKeeps` | CS165/cs165-project copy/src/multiselect.c:77-128 | every step of every task keeps the invariant |
| `Multiselect.FinishedRow` | CS165/cs165-project copy/src/multiselect.c:77-128 | a finished selection is the ascending list of one pass, or a permutation of it if the tasks appended under the lock; its intermediate results were freed once |
| `Multiselect.EveryRunSelectsRightly` | CS165/cs165-project copy/src/multiselect.c:212-308 | every finished run of every interleaving leaves in every selection the positions whose values are in its range, or outside for an inverse one, each once, and ascending unless the tasks append under the lock; it frees the shared arrays exactly once if there are selections and never if there are none |
| `Multiselect.NeverStuck` | CS165/cs165-project copy/src/multiselect.c:77-128 | until every task has given up its reference some task can take a step |
| `Multiselect.StepProgresses` | CS165/cs165-project copy/src/multiselect.c:77-128 | every step brings the end of the run closer |
| `Multiselect.RunsAreBounded` | CS165/cs165-project copy/src/multiselect.c:77-128 | so no run takes more steps than its tasks and their entries allow |
| `ThreadPool.NewIsInvariant` | CS165/cs165-project copy/src/thread_pool.c:97-124 | a new pool satisfies the invariant |
| `ThreadPool.StepKeeps` | CS165/cs165-project copy/src/thread_pool.c:62-189 | every step keeps it: tasks start first in first out, those started are those done and running, `working_cnt` counts the running ones, and nobody sleeps while there is work |
| `ThreadPool.RunKeeps` | CS165/cs165-project copy/src/thread_pool.c:62-189 | so does every run |
| `ThreadPool.Conservation` | CS165/cs165-project copy/src/thread_pool.c:150-173 | tasks handed in are the tasks queued, running and done, in number and task by task |
| `ThreadPool.ReturnsOnlyWhenDone` | CS165/cs165-project copy/src/thread_pool.c:175-189 | a wait returns only when every task handed in is done |
| `ThreadPool.CheckReturnsExactly` | CS165/cs165-project copy/src/thread_pool.c:175-189 | a caller that looks returns exactly when nothing is queued and nothing runs, and blocks otherwise |
| `ThreadPool.WorkShrinks` | CS165/cs165-project copy/src/thread_pool.c:66-92 | taking a task and finishing one each bring the pool one step closer to having done everything, and only handing in a task leads away from it |
| `ThreadPool.Drains` | CS165/cs165-project copy/src/thread_pool.c:66-92 | the workers alone can always finish everything, in as many steps as there is work |
| `ThreadPool.WorkersNeverStuck` | CS165/cs165-project copy/src/thread_pool.c:66-92 | while there is work some worker can take a step without being woken |
| `ThreadPool.OneWaiterIsServed` | CS165/cs165-project copy/src/thread_pool.c:88-89 | with one caller waiting at a time, the caller is blocked only while something is queued or running |
| `ThreadPool.SoloRunLeavesNobodyBlocked` | CS165/cs165-project copy/src/thread_pool.c:175-189 | in a run with at most one caller waiting at a time nobody is blocked once all work is done |
| `ThreadPool.AloneReturns` | CS165/cs165-project copy/src/thread_pool.c:175-189 | in such a run, once all work is done, a caller that has not returned does so with its next look |
| `ThreadPool.TwoWaitersCanBlock` | CS165/cs165-project copy/src/thread_pool.c:88-89 | for every number of threads there is a run with two callers waiting at once in which the one signal leaves the other blocked with nothing left to do |
| `ThreadPool.BlockedExactlyBeyondOne` | CS165/cs165-project copy/src/thread_pool.c:66-92 | for every number of threads, all runs with at most k callers waiting at once leave nobody blocked when the work is done, if and only if k is at most 1 |
| `BTree.FindSortedSlice` | CS165/cs165-project copy/src/btree.c:13-41 | the lower bound within the slice, one entry further left where all its keys are larger, and a read before the array exactly when that entry does not exist |
| `BTree.FindSorted` | CS165/cs165-project copy/src/btree.c:43-45 | the lower bound of the whole array, for keys not below the smallest |
| `BTree.InternalSearch` | CS165/cs165-project copy/src/btree.c:84-107 | the first separator that is larger than the key |
| `BTreeLevels.BuildLeaves` | CS165/cs165-project copy/src/btree.c:146-171 | leaf b holds the b-th stretch of fanout entries and its smallest and largest keys; together the leaves make up the array |
| `BTreeLevels.BuildLevel` | CS165/cs165-project copy/src/btree.c:178-223 | node j has the j-th group of children with their recorded largest keys, and a child is written past a node exactly when the last group would hold a single child |
| `BTree.SignsUp` | CS165/cs165-project copy/src/btree.c:197-205 | one level up, the nodes whose recorded largest key is negative are those with such a child, and at most the last of them is wrong: if that child was, or if it has children of both signs |
| `BTree.NodeSteers` | CS165/cs165-project copy/src/btree.c:187-205 | every node but that of a skipped key steers the search for the key right if its children do |
| `BTree.SkipBegins` | CS165/cs165-project copy/src/btree.c:281-287 | past a wrong separator the search for a key between what it says and its true largest key ends at the leaf right behind it |
| `BTree.LedUp` | CS165/cs165-project copy/src/btree.c:178-223 | level by level, a search is steered right or ends behind the outermost wrong separator so far |
| `BTree.RootLeads` | CS165/cs165-project copy/src/btree.c:273-291 | in any tree that is built, the root steers the search for a key right, unless the key is one that is skipped, and then the search ends at the leaf behind the outermost wrong separator |
| `BTree.TreeExactly` | CS165/cs165-project copy/src/btree.c:197-205 | the tree steers every key right exactly when no separator is wrong about its sign |
| `BTree.LoadBtree` | CS165/cs165-project copy/src/btree.c:146-238 | building fails exactly when some level leaves one child over; the root is that of the leaves and of level upon level above them, and is right for every key exactly when no separator is wrong about its sign |
| `BTree.FitsEasily` | CS165/cs165-project copy/src/btree.c:197-205 | keys of one sign, and leaves that are the children of one node, never give a wrong separator |
| `BTree.OneSignChange` | CS165/cs165-project copy/src/btree.c:197-205 | with the fanouts of the code and 130 full leaves of which the first is negative, the search is misled exactly for the keys from the largest of that leaf up to the second last of the first 65 leaves |
| `BTree.MixedSignsMislead` | CS165/cs165-project copy/src/btree.c:337-340 | an array with a wrong separator, loaded and searched: the search for 0 ends one place beyond the first larger key, where binary search ends |
| `BTree.MisledSearch` | CS165/cs165-project copy/src/btree.c:337-340 | whenever the search is misled the tree's answer stands behind that of binary search and does not part the array at the key |
| `BTreeLevels.OneLeafTooMany` | CS165/cs165-project copy/src/btree.c:185-194 | 65 full leaves fit, one key more does not |
| `BTree.ChildLeads` | CS165/cs165-project copy/src/btree.c:281-287 | the child chosen by the separators still has only keys at most the key before it and only larger ones after it |
| `BTree.FindLeaf` | CS165/cs165-project copy/src/btree.c:273-291 | from a root that steers the key right, the leaf reached has only keys at most the key before it and only larger ones after it |
| `BTree.Find` | CS165/cs165-project copy/src/btree.c:337-340 | in every tree that is built, for any keys, size and depth: a point that parts the array at the key exactly when the search is not misled, the first occurrence exactly when it does not overshoot and no leaf boundary cuts a run of the key, and where the result stands otherwise |
| `BTree.CutOnlyHere` | CS165/cs165-project copy/src/btree.c:273-291 | a leaf boundary cuts a run of the key exactly when the start of the leaf found for the key does |
| `BTree.FirstOccurrenceMissed` | CS165/cs165-project copy/src/btree.c:337-340 | of two equal keys in different leaves the tree finds the second, binary search the first |
| `BTree.FindAgrees` | CS165/cs165-project copy/src/btree.c:337-340 | for every array that can be loaded, binary search returns the first occurrence, and the tree the same exactly when the search does not overshoot and no leaf boundary cuts a run of the key |
| `Paging.NextCrosses` | CS61/psets/pset3/k-vmiter.cc:122-123 | the next address leaves the page exactly after its last entry |
| `Paging.SameTable` | CS61/psets/pset3/k-vmiter.cc:29-35 | addresses in one range of a level share the page at that level |
| `PtIter.Descend` | CS61/psets/pset3/k-vmiter.cc:116-119 | going down leaves the pages still to visit the same |
| `PtIter.Advance` | CS61/psets/pset3/k-vmiter.cc:122-135 | moving to the next entry, or finding the page exhausted, leaves the pages still to visit the same |
| `PtIter.StepPast` | CS61/psets/pset3/k-vmiter.cc:121-137 | a round that moves on, starts back from the root or finishes leaves the pages still to visit the same |
| `PtIter.Iterator.constructor` | CS61/psets/pset3/k-vmiter.cc:104-107 | the iterator stops at the first of all pages in post-order |
| `PtIter.Iterator.Down` | CS61/psets/pset3/k-vmiter.cc:109-139 | the loop ends, in spite of starting over at the root, stopped at the next page to visit |
| `PtIter.Iterator.Next` | CS61/psets/pset3/k-vmiter.hh:251-253 | the rest of the visits remains, reading only the root and pages still to be visited |
| `FreePageTable.Listed` | CS61/psets/pset3/k-vmiter.cc:109-139 | exactly the page-table pages of a range are among the visits below it |
| `FreePageTable.PostOrderCorrect` | CS61/psets/pset3/k-vmiter.cc:104-139 | the visits are exactly the pages below the root, each once and after every page below it |
| `FreePageTable.DistinctPages` | CS61/psets/pset3/k-vmiter.hh:91-100 | in a tree-shaped table the visits have distinct addresses, none the root |
| `FreePageTable.FreeAll` | CS61/psets/pset3/k-vmiter.hh:91-100 | freeing while iterating frees every page of the table exactly once, reads no freed page and frees nothing else |
| `Translations.StopResumed` | CS61/psets/pset3/k-vmiter.cc:28-35 | where a walk ends does not depend on how far down it is resumed |
| `Translations.AbsentRange` | CS61/psets/pset3/k-vmiter.cc:62-68 | an absent entry leaves its whole range unmapped |
| `Translations.OneRange` | CS61/psets/pset3/k-vmiter.hh:154-167 | the range of the entry a walk stops at is mapped as one piece |
| `VmIter.Iterator.constructor` | CS61/psets/pset3/k-vmiter.hh:144-147 | the state is that of a fresh walk for the address |
| `VmIter.Iterator.Down` | CS61/psets/pset3/k-vmiter.cc:28-42 | from any point of the walk, the state becomes that of a fresh walk, and it panics exactly over an entry that points beyond 4 GiB |
| `VmIter.Iterator.RealFind` | CS61/psets/pset3/k-vmiter.cc:44-60 | from any reachable state, the incremental branch too ends at the level, entry and permission mask of a fresh walk, with the same panic |
| `VmIter.Iterator.Reports` | CS61/psets/pset3/k-vmiter.hh:157-181 | the reported physical address and permissions are the translation of the current address |
| `VmIter.Iterator.ReportsEntries` | CS61/psets/pset3/k-vmiter.hh:157-181 | entry by entry: the walk stops at the first entry that is no table; the page is present exactly if that entry is, writable and accessible to users exactly if all entries on the way are, and its address is the entry's range with the offset of the address in it |
| `Translations.PhysAddrIs` | CS61/psets/pset3/k-vmiter.hh:157-167 | an entry's address, with or without bit 12 above level 0, stands for its multiple of the range |
| `Translations.MaskIs` | CS61/psets/pset3/k-vmiter.cc:28-35 | what is left of W and U is what all entries above have |
| `Translations.CanonicalIs` | CS61/psets/pset3/x86-64.h:65-67 | an address is canonical exactly when its bits 47 to 63 are equal |
| `VmIter.Iterator.Next` | CS61/psets/pset3/k-vmiter.cc:62-68 | the next address is that of the next page, or the end of the range of an absent entry, and every address jumped over is in the page left behind or unmapped |
| `VmIter.Iterator.NextRange` | CS61/psets/pset3/k-vmiter.hh:219-221 | the next address is the end of the entry's range, and every address jumped over is mapped as one piece with the address left behind |
| `Mapping.Install` | CS61/psets/pset3/k-vmiter.cc:87-96 | putting an empty page behind an absent entry keeps the table a tree and changes no translation |
| `Mapping.WriteLeaf` | CS61/psets/pset3/k-vmiter.cc:98-100 | writing a level-0 entry keeps the table a tree |
| `Mapping.OtherPagesKept` | CS61/psets/pset3/k-vmiter.cc:98-100 | writing a level-0 entry changes no translation outside its page |
| `Mapping.TranslationKept` | CS61/psets/pset3/k-vmiter.cc:28-35 | an address whose walk does not use the changed entry keeps its translation |
| `VmIter.Iterator.Extend` | CS61/psets/pset3/k-vmiter.cc:87-96 | the loop reaches level 0, or runs out of memory exactly when there are fewer pages than levels to go, and changes no translation either way |
| `VmIter.Iterator.TryMap` | CS61/psets/pset3/k-vmiter.cc:70-102 | success maps the current page as asked and no other page differently; failure changes no translation; it refuses exactly for the stated alignments, permissions of the entries above and a large page in the way, runs out of memory exactly when too few pages are left, and writes through the constant zero entry exactly at an address that is not canonical, for flags other than P, W and U, with memory left |
| `Io61.CachedFile.Fill` | CS61/psets/pset4/io61.cc:54-67 | the cache holds the next stretch of the file |
| `Io61.CachedFile.Read` | CS61/psets/pset4/io61.cc:102-131 | the bytes and the count are those the descriptor would have given at the cached position |
| `Io61.CachedFile.Readc` | CS61/psets/pset4/io61.cc:138-145 | the next byte, or EOF at the end |
| `Io61.CachedFile.Seek` | CS61/psets/pset4/io61.cc:222-250 | the position is the one asked for, and the cache is usable exactly when it is within the file |
| `Io61.CachedFile.Write` | CS61/psets/pset4/io61.cc:168-192 | all bytes are taken, after those taken before |
| `Io61.CachedFile.Flush` | CS61/psets/pset4/io61.cc:201-215 | everything written so far is in the file |
| `Io61.CachedFile.Close` | CS61/psets/pset4/io61.cc:87-92 | the file is what it was, overwritten by the concatenation of all writes |
| `Io61.SlowFile.Read` | CS61/psets/pset4/slow-io61.cc:65-75 | byte by byte, the same bytes and count |
| `Io61.SlowFile.Write` | CS61/psets/pset4/slow-io61.cc:104-117 | byte by byte, the same contents |
| `Io61.Agree` | CS61/psets/pset4/slow-io61.cc:48-142 | on the same contents, any sequence of reads, single-byte reads and seeks within the file gets from both files the answers that the contents and the position determine |
| `Io61.AgreeWriting` | CS61/psets/pset4/slow-io61.cc:88-117 | any sequence of writes leaves the same contents through both files: the writes one after another |

## Left out

- Strassen: overflow of `int`, and the reads through the bounds test as written, beyond saying exactly when they matter.
- Kruskal: floating-point rounding of the weights and of their sum, and the generators of random graphs.
- WellSeparated: how points are put into the quadtree, and the geometry behind the separation test, which is any test that accepts two leaves; `emst` and its representative points.
- RobinHood.Table.Put: failing allocation and the 32-bit wrap of the probe counter.
- ChainedTable: the pool of chain nodes and their pointers; a chain is the sequence of its entries, and the load factor's division is the nearest whole number.
- JoinOperators: `fast_hash_join`, which splits the build side into one part.
- Links: overflow of `int` where two columns are added or subtracted, which C leaves undefined, of the 64-bit sum, and the floating-point division of an average, which is kept as sum and count.
- Batch: `execute_breadth_select_heuristic`, the inverse selections, names that are neither variable nor column, and what happens after a variable still in use was deleted.
- Multiselect: estimating selectivities, allocation of vectors, and destruction of the locks.
- ThreadPool: `delete_thread_pool`, the linked list behind the queue (it is a sequence), and fairness.
- BTree: `insert`, which is a stub, and `find_last`, whose links between leaves are never set; nodes are values rather than pointers into pools.
- PtIter: page tables in which a page is reached twice are outside what freeing while iterating can support.
- VmIter.Iterator.TryMap: the bits outside PTE_PAMASK of a physical address that is not present, and the state after a write through the constant zero entry; asking for nothing inside a large page leaves it mapped.
- VmIter: the execute-disable bit, `range_perm`, and arithmetic on iterators, which is a search for the new address.
- Io61.CachedFile.Seek: seeks past the end of the file leave the cache unusable, and seeks on files opened for writing are not supported by its tags.
- Io61: errors of system calls, pipes and terminals.
- The kernel's processes, sockets, catalogues, message formats, the allocator exercise, the shell, games and documents.
