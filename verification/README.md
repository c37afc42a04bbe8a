# Proofs about the tools and runtime libraries of this repository

A Dafny model of the algorithms in this repository that are hardest to get right: the
generated master/worker protocol, the distributed heat solver, the container library, the
split triangular multiplication, and the arithmetic of the source-to-source tools. `dafny
verify dfyconfig.toml` checks everything.

**The master/worker protocol** (`MasterWorker*.dfy`; the first loop nest of
`HARP/2MPI/420iNoSmart.c`). Rank 0 hands out chunks of rows, serves remote reads of `U`,
applies remote writes to `Uout` and retires workers. The model is a transition system: one
queue per ordered pair of ranks (the non-overtaking rule, section 3.5 of MPI-3.1), one MPI
call per step, any scheduling. `partSize` is both the chunk size and the buffer of the
receive from any source, as in the code. The specification is the loop the generated code
runs (`++i`). Main results: `ResultIsSequential`, what the result is (`OneCell`,
`ConstantPlane`), `NoDeadlock` (whether or not sends wait for their receives), `RunLength`,
`RunEnds`, `EndsIffRows`, `RowsHandedOutOnce` with `HandedOutEnd` and `ChunksHandedOut`,
`ReturnDecides` and `CheckDecides`, `DismissedOnce`, `NothingUnderWay`. A cell of `Uout` is
an unsigned char; `minval`, `maxval`, `width` and `height` are unbounded integers.

**The heat solver** (`HeatStencil.dfy`, `HeatMpi*.dfy`;
`omp2mpiExamples/students/heat2D-mpi.c` against `heat2DOriginal.c`). Ranks own blocks of
rows and exchange the rows at the cuts with nonblocking sends and receives while they
compute the rest. A rank computes one row, posts one request or passes one wait per step;
data of a send may be picked up, and a message may be delivered, at any moment between
posting and waiting. The five-point expression is a function parameter on bit patterns, so
rounding plays no part. Main results: `DistributedIsSequential` (any run that ends, and the
gather, give the matrix of the sequential program) from `GatherReady`, `Gather` and
`SameAsSequential`; `InStep`, `ReadsFresh`, `NoConflict`, `NoDeadlock`, `RunEnds`,
`RowsTile`, `PlanRightIff`. They hold for at least three processes, at least two rows per
process, two columns and one step.

**The containers** (`lib/`). `Rb*.dfy` and `RedBlackTree.dfy` model the red-black tree on
mutable nodes with parent pointers and two sentinels, with full delete; each method is
proved against the shape the pointers spell out, and `RbMap.dfy` reads that shape as a
finite map, which every sequence of calls refines (`Session`). `CharTrie.dfy` models the
trie behind `uniquestr` on mutable nodes, with its memory count; `MergeSort.dfy` the
in-place sort with its two-ended fusion; `ExtStruct.dfy` the extensible struct on top of the
tree and of the trie, with the result over every sequence of calls (its own `Session`).

**The split triangular multiplication** (`Trmm.dfy`). Each iteration of a parallel loop
loads its operands in one step and stores in another, and all iterations interleave freely;
`SplitAgainstSequential` compares any finished schedule with the sequential program, and
`SplitIsProduct` says what both compute in exact arithmetic.

**The tools.** `Combinations.dfy`: `totalcombs` and the loop that visits all combinations of
functions. `LoopHeader.dfy`: the loop-header normaliser, on parsed headers; normalisation
preserves the visited values only under the condition `SameValuesIff` states, and a loop
down to a strict bound is shifted onto the bound whenever it makes a trip. `Chroma.dfy`: the
interlaced chroma upsampler, whose four passes are one filter (`AllFiltered`, with its
weights in `OneCell` and `EdgeCell`).

`CArith.dfy`, `CStrings.dfy`, `Multiples.dfy`, `Options.dfy` and `Sequences.dfy` hold what
several of these share.

Where code and expectation differ, the exact condition is proved: `EndsIffRows` (an empty
range leaves the master waiting), `ReadsInPlane` (a plane of one row is read at row -1),
`PlanRightIff` (with one row per process a copied row is updated), `InOutputIff` (an odd
number of chroma rows is written past the end of the plane), `SameTripsIff` and
`SameValuesIff` (the normaliser).

## Model

| member | source | states |
|---|---|---|
| `MasterWorker.FirstTag` | HARP/2MPI/420iNoSmart.c:110-110 | A receive with a tag takes the first queued message with that tag, and all before it have other tags |
| `MasterWorkerProc.WorkerKeeps` | HARP/2MPI/420iNoSmart.c:248-316 | Every step of a worker keeps the conversation: what is under way to the master is exactly the stretch of the chunk's fixed message stream between what the master has taken and what the worker has sent, and the answers read so far are the values of U asked for |
| `MasterWorkerProc.ReceiveKeeps` | HARP/2MPI/420iNoSmart.c:100-209 | The receive from any source only ever meets the first message of a read request, of a write, or of a chunk return, with the value that selects the right branch |
| `MasterWorkerProc.ReadKeeps` | HARP/2MPI/420iNoSmart.c:109-112 | The second message of a read is the address asked for, and the reply owed is U at that address |
| `MasterWorkerProc.ReplyKeeps` | HARP/2MPI/420iNoSmart.c:111-111 | The reply is the one message in the queue of the worker that waits for it |
| `MasterWorkerProc.WriteKeeps` | HARP/2MPI/420iNoSmart.c:135-136 | The second message of a write is the address of the current point |
| `MasterWorkerProc.ValueKeeps` | HARP/2MPI/420iNoSmart.c:137-137 | The third message of a write is the filtered value of the very point whose address came second |
| `MasterWorkerProc.OffsetKeeps` | HARP/2MPI/420iNoSmart.c:208-210 | When the second closing message is taken the size returned through partSize is the size handed out, every message of the chunk has been taken and nothing is under way |
| `MasterWorkerProc.SendingKeeps` | HARP/2MPI/420iNoSmart.c:67-75 | Each message sent is the next of the eight of the assignment that the worker has still to receive, however sending and receiving interleave |
| `MasterWorkerRun.FireKeeps` | HARP/2MPI/420iNoSmart.c:59-318 | Every step of any rank keeps the whole invariant: conversations, chunk tiling, one chunk per worker, followIN and partSize, and killed equal to the number of retired workers |
| `MasterWorkerRun.TiledBounds` | HARP/2MPI/420iNoSmart.c:65-96 | Chunks handed out are ordered, disjoint, inside the range, and of size 1 to the first partSize |
| `MasterWorkerResult.SequentialNest` | HARP/2MPI/420iNoSmart.c:263-308 | The two loops run on one processor with unit stride compute RowsFrom |
| `MasterWorkerResult.WritesDistinct` | HARP/2MPI/420iNoSmart.c:302-303 | Distinct points of the nest write distinct addresses |
| `MasterWorkerResult.RowsApplied` | HARP/2MPI/420iNoSmart.c:263-308 | After the sequential rows every point has its value and every other address its first value |
| `MasterWorkerResult.Determined` | HARP/2MPI/420iNoSmart.c:263-308 | Any plane in which every point is applied and nothing else is changed is the same plane |
| `MasterWorkerResult.OutWrite` | HARP/2MPI/420iNoSmart.c:131-138 | When a write is applied its own point becomes applied, and every other point handed out stays applied or pending |
| `MasterWorkerResult.OutReturned` | HARP/2MPI/420iNoSmart.c:208-210 | When a chunk whose messages have all been taken is returned, none of its points is left unapplied |
| `MasterWorkerResult.RunKeeps` | HARP/2MPI/420iNoSmart.c:59-318 | In every state of every run each point handed out is applied or still pending at its worker |
| `MasterWorkerResult.ResultIsSequential` | HARP/2MPI/420iNoSmart.c:59-318 | For any number of workers and any interleaving: when the master leaves the nest its Uout is the result of the sequential nest |
| `MasterWorkerFilter.ConstantPlane` | HARP/2MPI/420iNoSmart.c:278-304 | In the result of the nest a constant plane within the bounds has become that constant at every address written |
| `MasterWorkerFilter.OneCell` | HARP/2MPI/420iNoSmart.c:278-304 | In the result of the nest a plane that is zero but for one cell has become, at every address written, the clipped (w*u+512)/1024 as an unsigned char, with w the sum of 24, -41, 1169 and -128 over those of rows max(0,i-4), max(0,i-2), i and min(height/2-2,i+2) that hold the cell |
| `MasterWorkerProgress.NoDeadlock` | HARP/2MPI/420iNoSmart.c:98-316 | With rows to hand out, every reachable state in which some rank is still in the nest has a next step, even when every send waits for its receive |
| `MasterWorkerProgress.FireDecreases` | HARP/2MPI/420iNoSmart.c:59-318 | Every step lowers a measure over rows not handed out, unfinished chunk work and messages to take |
| `MasterWorkerProgress.RunLength` | HARP/2MPI/420iNoSmart.c:59-318 | No run is longer than (44*(width/2)+32)*(height/2) + 3*workers + 1 steps |
| `MasterWorkerProgress.RunEnds` | HARP/2MPI/420iNoSmart.c:59-318 | Every run can be continued until all ranks have left |
| `MasterWorkerProgress.EndsIffRows` | HARP/2MPI/420iNoSmart.c:57-98 | The nest can be left if and only if there is at least one row: with none, all workers are retired at start-up and the master waits forever |
| `MasterWorkerSchedule.RowsHandedOutOnce` | HARP/2MPI/420iNoSmart.c:63-96 | In every reachable state the rows handed out are an initial range, each in exactly one chunk of 1 to the first partSize rows, no two workers share a row, and when the master leaves all rows are handed out |
| `MasterWorkerSchedule.HandedOutEnd` | HARP/2MPI/420iNoSmart.c:63-97 | In every reachable state the rows handed out are exactly those below the smaller of height/2 and followIN, where followIN counts the chunk being handed out |
| `MasterWorkerSchedule.ChunksHandedOut` | HARP/2MPI/420iNoSmart.c:57-97 | Whatever the schedule the k-th chunk handed out is rows k*p to (k+1)*p or the last row, with p = height/2 over the number of workers, or 1; in all there are height/2 over p of them, rounded up |
| `MasterWorkerSchedule.ReturnDecides` | HARP/2MPI/420iNoSmart.c:211-234 | The step after the return of a chunk gives its worker the next chunk if rows are left, and otherwise leaves it without one and hands out nothing |
| `MasterWorkerSchedule.CheckDecides` | HARP/2MPI/420iNoSmart.c:235-244 | The next step retires that worker if and only if it was left without a chunk, and ends the nest if and only if all workers are retired |
| `MasterWorkerSchedule.WorkOrDismissal` | HARP/2MPI/420iNoSmart.c:211-244 | At the head of the loop and at the end every worker has a chunk or has been retired, never both |
| `MasterWorkerSchedule.DismissedOnce` | HARP/2MPI/420iNoSmart.c:235-244 | Over a whole run the master sends a worker FTAG at most once and the worker has received it no more often; in a run that has ended it was sent and received exactly once |
| `MasterWorkerSchedule.NothingUnderWay` | HARP/2MPI/420iNoSmart.c:235-316 | When all ranks have left the nest no message is on its way in either direction, so the next nest can use the same tags |
| `MasterWorkerSchedule.ReadsInPlane` | HARP/2MPI/420iNoSmart.c:278-297 | The reads stay inside the plane if and only if it has at least two rows (min(height/2-2, i+2) is -1 when there is one) |
| `MasterWorkerSchedule.WritesInPlane` | HARP/2MPI/420iNoSmart.c:301-304 | The writes stay inside the output plane |
| `HeatStencil.Update` | omp2mpiExamples/students/heat2DOriginal.c:26-38 | Inner cells get the update expression of the other buffer; all others keep their value |
| `HeatStencil.InitializeArray` | omp2mpiExamples/students/heat2DOriginal.c:170-191 | The first buffer holds the plate at step 0, borders zero |
| `HeatStencil.StepHolds` | omp2mpiExamples/students/heat2DOriginal.c:26-38 | A step of the plate gives each inner cell the update of itself and its four neighbours, and keeps the sides zero |
| `HeatStencil.StartHolds` | omp2mpiExamples/students/heat2DOriginal.c:170-191 | At step 0 the inner cells have their initial values and the sides are zero |
| `HeatStencil.Heat` | omp2mpiExamples/students/heat2DOriginal.c:99-116 | After any number of steps with two buffers the current one holds the plate after that many steps |
| `HeatMpiInit.InitializeArray` | omp2mpiExamples/students/heat2D-mpi.c:410-442 | With its offset, and its borders set by the first and the last rank only, each rank fills its block with exactly the plate's rows at step 0, copied rows included |
| `HeatMpi.UpdateRow` | omp2mpiExamples/students/heat2D-mpi.c:34-39 | The inner loop turns one row of the next buffer into the step function of the three rows around it and leaves all other rows alone |
| `HeatMpi.Sizes` | omp2mpiExamples/students/heat2D-mpi.c:249-315 | Buffer heights and loop ranges; the edge row computed after a wait is the row sent |
| `HeatMpi.Match` | omp2mpiExamples/students/heat2D-mpi.c:102-102 | A receive takes the first queued message that carries its iteration number |
| `HeatMpiInv.InPlate` | omp2mpiExamples/students/heat2D-mpi.c:249-283 | Local rows are rows of the plate, and only the first and the last block reach its border |
| `HeatMpiInv.Facing` | omp2mpiExamples/students/heat2D-mpi.c:104-121 | Requests come in facing pairs: the row one end sends is the row the other keeps a copy of |
| `HeatMpiInv.ComputedRow` | omp2mpiExamples/students/heat2D-mpi.c:52-56 | A row computed from up-to-date rows is the plate's next row |
| `HeatMpiInv.StepKeeps` | omp2mpiExamples/students/heat2D-mpi.c:43-121 | Every step of a rank keeps: own rows are the plate's of this iteration, computed rows the plate's of the next, requests match the position in the program |
| `HeatMpiInv.EdgeKnown` | omp2mpiExamples/students/heat2D-mpi.c:59-96 | When an edge row is computed the copy of the neighbour's row of the same iteration has arrived |
| `HeatMpiInv.SwapKeeps` | omp2mpiExamples/students/heat2D-mpi.c:337-337 | At the end of an iteration all own rows of the next buffer have been computed, so the buffers can be swapped |
| `HeatMpiRun.FireKeeps` | omp2mpiExamples/students/heat2D-mpi.c:319-338 | Steps of ranks, pick-ups and deliveries in any order keep all ranks and all message queues right |
| `HeatMpiRun.PickupKeeps` | omp2mpiExamples/students/heat2D-mpi.c:106-117 | A message picked up joins the facing queue with its iteration number and the plate's row |
| `HeatMpiRun.DeliverKeeps` | omp2mpiExamples/students/heat2D-mpi.c:108-120 | A delivered message fills the copied row with the neighbour's row of this iteration |
| `HeatMpiRun.InStep` | omp2mpiExamples/students/heat2D-mpi.c:328-338 | Neighbouring ranks are never more than one iteration apart |
| `HeatMpiRun.ReadsFresh` | omp2mpiExamples/students/heat2D-mpi.c:43-97 | Whenever a row is computed the three rows read are the plate's rows of this iteration |
| `HeatMpiRun.NoConflict` | omp2mpiExamples/students/heat2D-mpi.c:59-96 | No row is written in the buffer of a pending request, and no row that is read can still be received into |
| `HeatMpiRun.NoDeadlock` | omp2mpiExamples/students/heat2D-mpi.c:59-90 | Until every rank has ended some move is possible, even when a send only completes against a posted receive |
| `HeatMpiResult.FireDecreases` | omp2mpiExamples/students/heat2D-mpi.c:319-338 | Every move lowers a measure of program steps and messages left |
| `HeatMpiResult.RunEnds` | omp2mpiExamples/students/heat2D-mpi.c:319-338 | Every run can be continued until every rank has ended |
| `HeatMpiResult.RowsTile` | omp2mpiExamples/students/heat2D-mpi.c:249-283 | Every row g of the plate is owned by exactly one rank, number g/(NX/np) or the last |
| `HeatMpiResult.PlanRightIff` | omp2mpiExamples/students/heat2D-mpi.c:301-315 | Every rank computes each of its rows between first and last exactly once, and no other, if and only if NX/np >= 2 (with one row the clamp makes it compute a copied row) |
| `HeatMpiResult.Layout` | omp2mpiExamples/students/heat2D-mpi.c:132-146 | Counts and displacements of the gather: where each block starts and how many elements it has |
| `HeatMpiResult.BlockEnd` | omp2mpiExamples/students/heat2D-mpi.c:132-146 | Each block of the gather ends where the next starts, the last at the end of the matrix |
| `HeatMpiResult.Lands` | omp2mpiExamples/students/heat2D-mpi.c:139-164 | Each element a rank sends to the gather lands at its place in the matrix |
| `HeatMpiResult.Gather` | omp2mpiExamples/students/heat2D-mpi.c:125-165 | The gathered matrix is the plate after the last step, element by element |
| `HeatMpiResult.GatherReady` | omp2mpiExamples/students/heat2D-mpi.c:319-347 | Whatever the interleaving, when all ranks have ended their own rows are the plate's rows after the last step |
| `HeatMpiResult.SameAsSequential` | omp2mpiExamples/students/heat2DOriginal.c:110-116 | Element i*NY+j of the gathered array is element (i, j) of the buffer the sequential program ends with |
| `HeatMpiResult.DistributedIsSequential` | omp2mpiExamples/students/heat2D-mpi.c:319-347 | Any run of the distributed program that has ended, followed by the gather, leaves at rank 0 the matrix that the sequential program computes |
| `Trmm.Sequential` | omp2hmppExamples/trmm/trmm.c:39-44 | The triple loop in place computes the recursive value of every element; with exact arithmetic that is B[i][j] + alpha times the sum over all k < i of A[i][k]*B[j][k], final for j <= i; and row i takes i steps |
| `Trmm.ReadsOperand` | allSystemExamples/trmm-ALL-.c:39-56 | Whatever the other iterations of a parallel loop are doing, an iteration reads the operand the sequential loop reads |
| `Trmm.FireKeeps` | allSystemExamples/trmm-ALL-.c:38-57 | Every interleaving of loads and stores of the parallel iterations keeps each element a partial sum of the sequential loop |
| `Trmm.SplitIsSequential` | allSystemExamples/trmm-ALL-.c:38-57 | However the iterations of the three parallel loops interleave, every element ends as the recursive value Final |
| `Trmm.SplitIsProduct` | allSystemExamples/trmm-ALL-.c:38-57 | Every finished schedule leaves that same product in place, with i steps in row i |
| `Trmm.SplitAgainstSequential` | allSystemExamples/trmm-ALL-.c:38-57 | Any finished schedule of the split program leaves the matrix that the sequential program leaves |
| `Trmm.CanMove` | allSystemExamples/trmm-ALL-.c:38-57 | Until the last row is done some iteration can go on or the parallel loop can end |
| `Trmm.RunLength` | allSystemExamples/trmm-ALL-.c:38-57 | No schedule is longer than the number of half steps and joins of the program |
| `RedBlackTree.RbTree.constructor` | lib/red_black_tree.c:92-116 | An empty tree with its two sentinels satisfies all invariants |
| `RedBlackTree.RbTree.LeftRotate` | lib/red_black_tree.c:134-169 | The pointers of the nodes involved after a left rotation, all others unchanged |
| `RedBlackTree.RbTree.RightRotate` | lib/red_black_tree.c:189-223 | The mirror image |
| `RbShape.RotateDone` | lib/red_black_tree.c:134-223 | After a rotation the pointers spell out the rotated shape in an unchanged context |
| `RbShape.RotateInOrder` | lib/red_black_tree.c:134-223 | The rotated shape has the same in-order sequence |
| `RbShape.PlugRedBlack` | lib/red_black_tree.c:306-340 | A subtree that is red-black and has the black height its context expects makes the whole tree red-black |
| `RedBlackTree.RbTree.TreeInsertHelp` | lib/red_black_tree.c:240-268 | The new node hangs after every node that compares less or equal and before every greater one |
| `RbRepair.AddRecolour` | lib/red_black_tree.c:306-310 | Red uncle: recolouring moves the only possible violation two levels up |
| `RbRepair.AddOuter` | lib/red_black_tree.c:316-318 | Black uncle, outer grandchild: recolouring and one rotation end the repair |
| `RedBlackTree.RbTree.AddRound` | lib/red_black_tree.c:303-337 | One round of the repair loop keeps the order and the invariant, and the violation moves up or is gone |
| `RedBlackTree.RbTree.Add` | lib/red_black_tree.c:291-345 | Adding keeps all invariants; the in-order sequence is the old one with the new node after every key that compares less or equal |
| `RbDelete.Case1` | lib/red_black_tree.c:616-621 | Red sibling: the rotation keeps the missing black node where it was and gives a black sibling |
| `RbDelete.Case2` | lib/red_black_tree.c:622-624 | Black sibling with black children: painting it red moves the missing black node up |
| `RbDelete.Case3` | lib/red_black_tree.c:625-631 | Near child red: one rotation makes the far child red |
| `RbDelete.Case4` | lib/red_black_tree.c:632-635 | Far child red: one rotation restores all black heights |
| `RedBlackTree.RbTree.FixRound` | lib/red_black_tree.c:613-662 | One round of the delete repair, with the root remembered before the loop possibly stale |
| `RedBlackTree.RbTree.DeleteFixUp` | lib/red_black_tree.c:609-668 | The repair ends, restores equal black heights and no red-red pair, keeps the in-order sequence, and may be entered at the nil sentinel |
| `RedBlackTree.RbTree.Successor` | lib/red_black_tree.c:378-397 | The next node of the in-order sequence, or nil after the last |
| `RbDelete.SuccessorReplaces` | lib/red_black_tree.c:705-726 | Taking the successor out and putting it in the place of the deleted node removes exactly that node from the sequence |
| `RedBlackTree.RbTree.Relink` | lib/red_black_tree.c:716-725 | The successor takes over the place, the children and the colour of the deleted node |
| `RedBlackTree.RbTree.Delete` | lib/red_black_tree.c:688-737 | Deleting any node restores all invariants and removes exactly that node; every other node stays, as the same object, in the same order |
| `RedBlackTree.RbTree.Query` | lib/red_black_tree.c:574-590 | A node with an equal key if there is one, null otherwise, after at most 2 log2(n+1) comparisons |
| `RbHeight.LogHeight` | lib/red_black_tree.c:574-590 | In a red-black tree of n nodes 2 to the height is at most (n+1) squared |
| `RedBlackTree.RbTree.Insert` | lib/red_black_tree.c:347-362 | For any tree, equal keys included: updates the data of one node with an equal key if and only if there is one, adds one node otherwise; no other data changes, and keys that are pairwise different stay so |
| `RedBlackTree.RbTree.InorderTreeWalk` | lib/red_black_tree.c:542-551 | Calls back for every node of the subtree in order |
| `RedBlackTree.RbTree.Walk` | lib/red_black_tree.c:553-558 | Keys and data in key order |
| `RbMap.Query` | lib/red_black_tree.c:574-590 | A query answers with the finite map the tree stands for |
| `RbMap.Insert` | lib/red_black_tree.c:347-362 | Insert sets one key of that map and leaves every other key alone |
| `RbMap.Delete` | lib/red_black_tree.c:688-737 | Querying a key and deleting the node found removes that key from the map and leaves every other key alone |
| `RbMap.Walk` | lib/red_black_tree.c:553-558 | The walk lists the map, each key once, in strictly increasing key order |
| `RbMap.Session` | lib/red_black_tree.c:92-737 | Over any sequence of insert, query and delete calls on a new tree every query answers what the finite map of the calls before it holds, and the walk at the end lists the final map in strictly increasing key order |
| `CharTrie.LookupElementRec` | lib/char_trie.c:125-141 | Binary search finds the element of a sorted array, or shows there is none |
| `CharTrie.Trie.LookupList` | lib/char_trie.c:69-88 | Lookup of a string is a lookup in the table of strings kept below the node |
| `CharTrie.Interner.Place` | lib/char_trie.c:155-182 | The search finds where a missing element belongs and never reaches abort |
| `CharTrie.Interner.OpenGap` | lib/char_trie.c:183-188 | Shifting opens a gap and keeps the elements on both sides |
| `CharTrie.SpreadLookup` | lib/char_trie.c:183-205 | After an element is put into a sorted array the others are found as before |
| `CharTrie.Interner.CreateElements` | lib/char_trie.c:148-216 | Adds exactly one string to the table of the node, with the right memory count |
| `CharTrie.Interner.InsertListRec` | lib/char_trie.c:93-118 | Inserting a string that is not there never returns NULL and adds exactly that string |
| `CharTrie.DepthBelow` | lib/char_trie.c:106-116 | How many characters of a string were already there, one level up |
| `CharTrie.MorePrefixes` | lib/char_trie.c:199-207 | A new string adds one prefix for every character that was not there |
| `CharTrie.Interner.UniqueStr` | lib/char_trie.c:265-278 | The pointer kept for these contents, or a new one kept from now on; the memory count stays the sum over distinct strings and their distinct prefixes; NULL gives NULL |
| `CharTrie.Interner.UniqueStrs` | lib/char_trie.c:265-278 | Over any sequence of calls NULL gives NULL, two other results are the same pointer if and only if the inputs have the same contents, and earlier results never change |
| `MergeSort.TestIsStrCmp` | lib/string_utils.c:198-225 | strncmp over the shorter length and then the lengths is exactly the order of strcmp |
| `CStrings.Lexicographic` | lib/string_utils.c:198-225 | strcmp is negative exactly when the first string ends first at a common prefix, or has the smaller byte at the first difference |
| `CStrings.Transitive` | lib/extstruct.c:43-46 | The order of strcmp is transitive |
| `CStrings.Opposite` | lib/extstruct.c:43-46 | Exchanging the arguments of strcmp turns the sign |
| `CStrings.Equal` | lib/extstruct.c:43-46 | strcmp is zero exactly for equal contents |
| `MergeSort.Auxiliary` | lib/string_utils.c:180-189 | The auxiliary list is the left half followed by the reversed right half |
| `MergeSort.EndIsFirst` | lib/string_utils.c:194-237 | The end that the fusion takes may stand before everything between the two ends |
| `MergeSort.MergeStep` | lib/string_utils.c:197-236 | One step of the two-ended fusion keeps the written part sorted, before the rest, and nothing lost |
| `MergeSort.MergeEnds` | lib/string_utils.c:191-237 | The fusion stays inside the auxiliary list and leaves a sorted permutation of it, in either direction |
| `MergeSort.Fusion` | lib/string_utils.c:174-238 | Two sorted halves become one sorted range with the same contents; nothing outside changes |
| `MergeSort.Sort` | lib/string_utils.c:242-250 | The recursive sort sorts its range, keeps its contents, changes nothing outside, and ends |
| `MergeSort.MergeSortList` | lib/string_utils.c:252-255 | The whole list becomes a permutation of itself in which no string follows one that comes later in the alphabetical order of bytes, or earlier when descending |
| `ExtStruct.CompareIsComparator` | lib/extstruct.c:43-46 | strcmp on unique strings is a comparison function as the tree needs it |
| `ExtStruct.ExtensibleStruct.SetField` | lib/extstruct.c:56-61 | Keeps the name with uniquestr, sets its field of the table and no other, and owns every node it adds, so that fields can be set one after another |
| `ExtStruct.ExtensibleStruct.GetField` | lib/extstruct.c:63-78 | The last data set for a name with these characters, or none; the name is kept by uniquestr too, and no field changes |
| `ExtStruct.ExtensibleStruct.GetAllData` | lib/extstruct.c:88-113 | Exactly the last values set, each name once, in the alphabetical order of bytes; the names are the pointers that uniquestr keeps |
| `ExtStruct.Session` | lib/extstruct.c:50-113 | Over any sequence of set and get calls on a new struct every get returns the last data set for that name before it, and the listing at the end is exactly the last data of all names set |
| `ExtStruct.SamePointer` | lib/extstruct.c:43-61 | Comparing addresses of kept strings is comparing the pointers that uniquestr returns |
| `Combinations.ChooseStep` | omp_to_hmpp/s2s/mV.cpp:28-31 | The step of totalcombs before its division: d times C(n,d) is (n-d+1) times C(n,d-1) |
| `Combinations.TotalCombs` | omp_to_hmpp/s2s/mV.cpp:25-33 | totalcombs computes the binomial coefficient, and every division is exact |
| `Combinations.Advance` | omp_to_hmpp/s2s/mV.cpp:762-771 | The advance finds the last position that can move up, if any, and makes the following ones run on from it |
| `Combinations.NextCombination` | omp_to_hmpp/s2s/mV.cpp:762-771 | The advance gives a greater combination |
| `Combinations.NothingBetween` | omp_to_hmpp/s2s/mV.cpp:762-771 | No combination lies between one and its advance |
| `Combinations.Visit` | omp_to_hmpp/s2s/mV.cpp:709-772 | Every increasing list of r numbers below n is visited exactly once, in lexicographic order |
| `Combinations.VisitedCount` | omp_to_hmpp/s2s/mV.cpp:709-772 | The number visited is the number totalcombs computes |
| `Combinations.WholeRow` | omp_to_hmpp/s2s/mV.cpp:708-777 | The binomial coefficients of n add up to 2^n |
| `Combinations.VisitAll` | omp_to_hmpp/s2s/mV.cpp:700-778 | With at least two functions every non-empty subset is visited exactly once, 2^n - 1 in all, by size and lexicographically within a size, and the 2^n - 2 versions transformed are those that leave a function out; with fewer functions, none |
| `LoopHeader.NormalizeFor` | normalizeLoops/forNormalization/forNormalization.cpp:276-321 | The header a loop is given, that a strict upward loop is left alone, and exactly which values the new loop visits, in increasing order: for > those from the bound up to before the first, for >= up to the first and past it by less than a step, for <= past the bound by less than a step |
| `LoopHeader.VisitsExactly` | normalizeLoops/forNormalization/forNormalization.cpp:226-330 | A loop visits exactly the values from its first by whole steps that satisfy its condition, for each of the four relations |
| `LoopHeader.CountsTrips` | normalizeLoops/forNormalization/forNormalization.cpp:226-330 | The number of trips of a loop, rounded up, or down plus one when the bound is included |
| `LoopHeader.SameTripsIff` | normalizeLoops/forNormalization/forNormalization.cpp:278-321 | Normalisation keeps the number of trips if and only if the loop is strict, or the step divides the span, or the bound is a whole step out of reach |
| `LoopHeader.SameValuesIff` | normalizeLoops/forNormalization/forNormalization.cpp:278-321 | Normalisation keeps the set of values if and only if: always for <; for > only when there is no trip; for <= and >= under the same condition as the number of trips |
| `Chroma.TapsInField` | HARP/ADDTRACES/420i.c:169-248 | All rows read are rows of the plane and of the field of the row being filtered |
| `Chroma.FilledOnce` | HARP/ADDTRACES/420i.c:169-248 | Every output row is filled by exactly one pass at exactly one input row |
| `Chroma.InOutputIff` | HARP/ADDTRACES/420i.c:169-248 | The passes fill rows of the output plane only if and only if the input has an even number of rows |
| `Chroma.Cell` | HARP/ADDTRACES/420i.c:173-174 | One cell of the output gets the filtered and clipped value of its column; no other cell changes |
| `Chroma.Pass` | HARP/ADDTRACES/420i.c:169-176 | One loop over a plane fills all its rows and leaves the rows of the earlier passes alone |
| `Chroma.AllFiltered` | HARP/ADDTRACES/420i.c:169-248 | The four passes together are one filter: each output cell is the clipped sum of its column of the input, each row with a weight by its distance, the first and last row of a field standing for the rows beyond |
| `Chroma.OneCell` | HARP/ADDTRACES/420i.c:173-245 | A plane zero but for one cell away from the edges gives the literal weights of all four passes at their rows, and nothing elsewhere |
| `Chroma.EdgeCell` | HARP/ADDTRACES/420i.c:173-245 | The same for a cell in the first or last row of either field |
| `Chroma.ConvertPlane` | HARP/ADDTRACES/420i.c:169-248 | After the four passes every output row is what its one pass computes, every cell is within the clipping bounds, and a constant plane within the bounds has become a constant plane of the same value |
| `Chroma.AllClipped` | HARP/ADDTRACES/420i.c:145-174 | A finished plane holds only values within the clipping bounds |
| `Chroma.AllConstant` | HARP/ADDTRACES/420i.c:173-245 | A plane finished from a constant one within the bounds is constant with the same value |

## Left out

- The nests of `HARP/2MPI/420iNoSmart.c` after the first, and the worker bodies of `HARP/2MPI/420iSmart.c`: their results stay in worker-local arrays. The hand-out of `420iSmart.c` (lines 57-153) is that of the first nest with two messages per assignment instead of eight.
- The SWTAG, FRTAG and FWTAG branches of the master (`420iNoSmart.c:142-207`): no rank sends these tags in this nest.
- Any claim that the generated nest equals the strided loop of `HARP/2MPI/420i.c`: the generated code runs with stride one.
- MPI start-up and shutdown, timers, printing and file output; failed allocations, freed memory and destructor callbacks; overflow of C integers.
- MasterWorker.Retire: the value carried by FTAG is whatever the variable `offset` holds; the model sends 0, and no rank reads it.
- Fairness of schedulers: runs are any sequences of possible moves, and all of them are finite.
- The expression for the first value of an inner cell (`heat2D-mpi.c:424`, `heat2DOriginal.c:177`) is a function parameter of row and column, the same for both programs.
- HeatMpi.UpdateRow: the step of a rank is a whole row; that the loop over its columns computes that row is proved on arrays, and nothing of the row is read by another rank meanwhile.
- RedBlackTree.RbTree.Insert: keys and data are integers standing for pointers; the comparison function is a parameter that must be a total preorder.
- `rb_tree_destroy`, the predecessor function and the debugging code of `lib/red_black_tree.c`.
- CharTrie.Interner.UniqueStr: the size of a trie node is a constant of the model; the elements of a node are a list that is reassigned, so that the array moved by `realloc` is not modelled.
- ExtStruct.ExtensibleStruct.SetField: the tree compares addresses, and the address of each string kept is a parameter, a function of its contents (`SamePointer` says why); the test for a missing table in `extensible_struct_get_field` never fails after initialisation; a name is never NULL, on which `strcmp` is undefined.
- MergeSort.MergeSortList: the sort is not stable on equal strings, and nothing is claimed about it; the auxiliary list is a value that grows.
- Combinations.VisitAll: the contents of the file `doTransform` writes for a combination, and the sum of its results; which combinations it is called for is `versions`.
- LoopHeader.NormalizeFor: headers are already parsed, with steps `++`, `--` and `i = i ± c`; `!=` conditions, compound steps, steps found in the loop body, and all text handling are not modelled.
- Chroma.ConvertPlane: the loops for the two planes are the same and are modelled once; luminance and the sixteen-bit copy of the loops differ only in the bounds.
- `inline_phase.cpp`, `onFor.cpp`, `outline_phase.hpp`, and the drivers that run compilers and measure time and energy: they rest on the compiler's own classes or on the operating system.
