# Row-partitioned MPI matrix multiplication and grid-neighbour flood, in Dafny

This project models the two MPI programs of the ParallelMPI repository.

**MatrixMul** is a benchmark. A coordinator (rank 0) fills two n×n integer
matrices A and B with values in [-5, 4], for each size in `MATRIX_SIZES`. It
splits A into `WorldSize - 1` row blocks of `MatrixSize / (WorldSize - 1)`
rows each, and sends every worker its block together with all of B. Each
worker multiplies its block by B with the triple-loop kernel and sends the
product rows back. The coordinator receives them into C at the matching
offsets.
- The model keeps the source's imperative form. `Matrix` is a class over a
  flat row-major `array<int>`, and the kernel, the fill, the dispatch loop,
  the worker round and the collect loop are methods with loop invariants.
- Each method is proved against a reference definition of the matrix
  product (`RowMajor.Product`, with `ProductCell` as its defining cell
  equation).
- The partition plan (rows per worker, block offsets, the covered prefix)
  has its own module with its arithmetic proved.
- The main result is `MatrixMul.Exchange`: after one size round, the
  covered rows of C are the product of the same rows of A with B, and the
  last `MatrixSize % (WorldSize - 1)` rows of C are never written. So C is
  A·B exactly when the worker count divides the size.
  `MatrixMul.Benchmark` runs all six sizes. With a power-of-two worker
  count up to 64, every round produces the full product.

**ParallelMPI** arranges the ranks in a grid:
- the left and right neighbours are one rank away;
- the up and down neighbours are `WorldSize / 2` ranks away.

Every rank then receives the rank lists of its right and down neighbours
into a buffer of `2 * WorldSize` cells filled with -1. It writes its own
rank, merges the two halves with `CombineResults`, and sends the merged list
to its left and up neighbours.
- The model proves that the neighbour relation is symmetric and that every
  send meets a matching receive.
- It proves the merge keeps known entries and fills unknown ones.
- It runs the program one rank at a time from the highest rank down
  (`ParallelMpi.Flood`). Each rank only receives from higher ranks, so this
  order is a valid schedule of the blocking receives.
- Every rank ends up knowing exactly the ranks from itself upward, so rank 0
  prints `0 1 … WorldSize-1`.

MPI itself is modelled sequentially, in module `Mpi`:
- a message is a value;
- a send appends it to the list of messages in flight;
- a blocking receive copies the payload into the receiver's buffer at an
  offset (`Mpi.Recv`);
- `Inbox` lists the messages addressed to one rank in sending order. Every
  message a worker receives comes from rank 0, and MPI does not let two
  messages from one sender to one receiver overtake each other, so this is
  the order in which the worker receives them.

Where the code and the intent differ, the model follows the code:
- C is never initialised by the coordinator, and the collect loop never
  writes C's last `MatrixSize % (WorldSize - 1)` rows. `Exchange` therefore
  states that those cells keep whatever C held, instead of promising A·B
  for every size.
- With one process, rank 0 is its own up and down neighbour
  (`SingleRankSelfNeighbour`). It would then post a blocking receive from
  itself before sending anything. `Flood` therefore requires at least two
  ranks.

## Model

| member | source | states |
|---|---|---|
| MatrixMul.Matrix.constructor | MatrixMul/Main.cpp:14-17 | a fresh Rows×Columns matrix owns a fresh buffer of exactly Rows*Columns cells |
| MatrixMul.Matrix.Fill | MatrixMul/Main.cpp:52-58 | every cell i becomes draws[i] % 10 - 5, so the buffer equals Filled(draws) |
| MatrixMul.FillValue | MatrixMul/Main.cpp:56 | a filled cell value always lies in [-5, 4] |
| MatrixMul.Filled | MatrixMul/Main.cpp:52-58 | a filled buffer has one cell per draw, each in [-5, 4] |
| MatrixMul.MatrixMul | MatrixMul/Main.cpp:136-149 | C's first A.rows rows become the matrix product A·B whatever C held before; the cells after them are unchanged |
| MatrixMul.MulRow | MatrixMul/Main.cpp:140-147 | one pass of the j-loop writes row i of C as row i of A times B and touches no other cell |
| MatrixMul.MulCell | MatrixMul/Main.cpp:142-146 | the reset-and-accumulate k-loop leaves in cell (i, j) the dot product of row i of A with column j of B and touches no other cell |
| MatrixMul.RowStep | MatrixMul/Main.cpp:138-148 | the row loop's invariant is kept: with rows 0..i-1 of C holding the product, writing row i extends the product by one row and leaves the rest of C untouched |
| MatrixMul.Dispatch | MatrixMul/Main.cpp:91-98 | every worker w is sent exactly two messages with the master tag, its own block of A followed by all of B; nothing else is sent |
| MatrixMul.DispatchStep | MatrixMul/Main.cpp:92-98 | one turn of the dispatch loop adds worker i's two messages and leaves every other worker's inbox as it was |
| MatrixMul.Worker | MatrixMul/Main.cpp:115-134 | a worker's reply goes to rank 0 with the worker tag, has RowsToReceive*MatrixSize cells, and is the product of the received block with the received B |
| MatrixMul.Collect | MatrixMul/Main.cpp:100-105 | the collect loop receives worker w's reply into C at Offset(w) for w = 1, 2, … in order |
| MatrixMul.Gathered | MatrixMul/Main.cpp:100-105 | receiving the replies into C leaves C's size unchanged |
| MatrixMul.GatheredExact | MatrixMul/Main.cpp:100-105 | when each reply is exactly one block long, the replies lie end to end from cell 0 and every cell after the last block keeps its old value |
| MatrixMul.AssembledProduct | MatrixMul/Main.cpp:91-105 | when each worker replies with its block's product, the replies end to end are the product of all the rows covered so far |
| MatrixMul.CollectedProduct | MatrixMul/Main.cpp:100-105 | after all workers reply, C's covered prefix is the product of A's covered rows with B and the tail is C's old tail |
| MatrixMul.Exchange | MatrixMul/Main.cpp:91-105 | one size round leaves the product of the covered rows of A with B in C, keeps the last MatrixSize % (WorldSize-1) rows of C as they were, and makes C = A·B when the worker count divides the size |
| MatrixMul.MasterRound | MatrixMul/Main.cpp:82-105 | one size round from the draws: C holds the product of the filled A and B on the covered rows, and everywhere when the worker count divides the size |
| MatrixMul.Benchmark | MatrixMul/Main.cpp:79-112 | one round per size of MATRIX_SIZES in order, each meeting MasterRound's guarantee; with a power-of-two worker count up to 64 every round gives the full product |
| MatrixMul.SizesDivisible | MatrixMul/Main.cpp:7 | every benchmark size is divisible by every power of two up to 64 |
| Partition.RowsPerWorker | MatrixMul/Main.cpp:82 | RowsToSend and RowsToReceive (line 121): the number of whole groups of WorldSize-1 rows in the matrix; RowsPerWorkerQuotient proves it is MatrixSize / (WorldSize-1) |
| Partition.Offset | MatrixMul/Main.cpp:91-104 | the value of Offset when the dispatch and collect loops reach worker w, (w-1) blocks from the start; OffsetStep and OffsetRows state its properties |
| Partition.RowsPerWorkerFloor | MatrixMul/Main.cpp:82 | RowsToSend blocks fit in the matrix for every worker, and one more row per worker would not |
| Partition.RowsPerWorkerQuotient | MatrixMul/Main.cpp:82 | the coordinator's RowsToSend and the worker's RowsToReceive are MatrixSize / (WorldSize-1), leaving MatrixSize % (WorldSize-1) rows over |
| Partition.UncoveredTail | MatrixMul/Main.cpp:91-105 | the blocks cover all but the last MatrixSize % (WorldSize-1) rows, and they cover the whole matrix exactly when the worker count divides the size or the matrix is empty |
| Partition.FullCover | MatrixMul/Main.cpp:91-105 | when the worker count divides the size, the blocks cover every row |
| Partition.OffsetStep | MatrixMul/Main.cpp:97-104 | advancing Offset by one block reaches the next worker's offset, and no block runs past the covered prefix |
| Partition.BlocksDisjoint | MatrixMul/Main.cpp:91-105 | two different workers' blocks do not overlap, in A or in C |
| Partition.CellOwner | MatrixMul/Main.cpp:91-105 | every covered cell lies in exactly the block of worker cell / BlockLength + 1 |
| Partition.OffsetRows | MatrixMul/Main.cpp:97 | worker w's offset is (w-1)*RowsToSend whole rows |
| Partition.Block | MatrixMul/Main.cpp:94 | the slice sent to a worker is exactly RowsToSend*MatrixSize cells long |
| Partition.BlockProductStep | MatrixMul/Main.cpp:91-105 | adding worker w's block to the rows covered before adds that block's product to the product |
| Partition.EvenSplitExample | MatrixMul/Main.cpp:82 | size 64 with four workers gives 16 rows each, worker 4 starts at row 48, and every row is covered |
| Partition.UnevenSplitExample | MatrixMul/Main.cpp:82 | size 65 with four workers gives 16 rows each and leaves the last row uncovered |
| RowMajor.Product | MatrixMul/Main.cpp:136-149 | the product of an n×m and an m×p matrix has n*p cells |
| RowMajor.ProductCell | MatrixMul/Main.cpp:142-145 | cell (i, j) of the product is the sum over k of A[i][k]*B[k][j], the kernel's formula |
| RowMajor.ProductAppendRow | MatrixMul/Main.cpp:138 | one more row of A adds one row, that row times B, to the product |
| RowMajor.ProductSplit | MatrixMul/Main.cpp:94-130 | the product of a stack of row blocks is the stack of the blocks' products, which justifies multiplying the blocks on separate workers |
| RowMajor.ProductConcat | MatrixMul/Main.cpp:94-130 | multiplying two row blocks separately and concatenating equals multiplying their concatenation |
| RowMajor.KernelExample | MatrixMul/Main.cpp:136-149 | [[1,2],[3,4]]·[[5,6],[7,8]] = [[19,22],[43,50]] |
| Mpi.Recv | MatrixMul/Main.cpp:103 | a receive copies the payload into the buffer from the offset on and leaves every other cell unchanged |
| Mpi.Overwrite | MatrixMul/Main.cpp:103 | the buffer keeps its length when a payload is received into it |
| Mpi.Inbox | MatrixMul/Main.cpp:127-128 | a rank's inbox holds only messages addressed to it, taken from those sent |
| Mpi.InboxSend | MatrixMul/Main.cpp:94-95 | a send extends only its destination's inbox, at the end |
| Mpi.InboxSendPair | MatrixMul/Main.cpp:94-95 | two sends to a rank with an empty inbox leave exactly those two there in order, and change no other inbox |
| Mpi.InboxEmpty | MatrixMul/Main.cpp:92-98 | a rank to which nothing was sent has an empty inbox |
| ParallelMpi.IsFirst | ParallelMPI/main.cpp:15-18 | the printing rank is rank 0; FirstHasNoLeft proves it is exactly the rank without a left neighbour |
| ParallelMpi.TruncDiv | ParallelMPI/main.cpp:24-25 | C++ integer division, truncating toward zero: for x >= 0 the quotient q >= 0 with q*d <= x < q*d + d, and for x < 0 the quotient q <= 0 with x <= q*d < x + d |
| ParallelMpi.RankOrNone | ParallelMPI/main.cpp:27-30 | a clamped neighbour is -1 or a rank of the world, and equal to the candidate whenever it is not -1 |
| ParallelMpi.GetConnectedNodes | ParallelMPI/main.cpp:20-33 | every neighbour is -1 or a rank in [0, WorldSize) |
| ParallelMpi.NeighbourValues | ParallelMPI/main.cpp:20-33 | each neighbour is exactly rank∓1 or rank∓WorldSize/2 when that is a rank, and -1 otherwise |
| ParallelMpi.FirstHasNoLeft | ParallelMPI/main.cpp:15-18 | the first rank is exactly the rank with no left neighbour |
| ParallelMpi.NeighbourSymmetry | ParallelMPI/main.cpp:20-33 | s is r's right neighbour iff r is s's left neighbour, and s is r's down neighbour iff r is s's up neighbour |
| ParallelMpi.SingleRankSelfNeighbour | ParallelMPI/main.cpp:24-30 | with one process, rank 0 is its own up and down neighbour |
| ParallelMpi.MergeEntry | ParallelMPI/main.cpp:39 | a merged entry is unknown iff both entries are unknown, and equals the first entry whenever that one is known |
| ParallelMpi.Combine | ParallelMPI/main.cpp:37-40 | the merged list has one entry per entry of the first list; CombineEntries gives each entry |
| ParallelMpi.CombineEntries | ParallelMPI/main.cpp:37-40 | the merge keeps each known entry of the first list, takes each unknown one from the second, and leaves an entry unknown iff both were |
| ParallelMpi.CombineIdempotent | ParallelMPI/main.cpp:35-41 | merging the same second list twice is the same as merging it once |
| ParallelMpi.CombineUnknown | ParallelMPI/main.cpp:35-41 | merging an all-unknown list changes nothing |
| ParallelMpi.CombineResults | ParallelMPI/main.cpp:35-41 | the first window becomes the entrywise merge of the two windows; nothing outside it changes, and the second window is only read, even when both windows lie in one buffer |
| ParallelMpi.WindowMerged | ParallelMPI/main.cpp:37-40 | a buffer merged in the first window and equal elsewhere is the old buffer with that window replaced by the merge |
| ParallelMpi.NewReceivedResults | ParallelMPI/main.cpp:56-57 | the receive buffer has 2*WorldSize cells, all -1 |
| ParallelMpi.ReceiveNeighbours | ParallelMPI/main.cpp:56-67 | the right neighbour's list, padded with -1, fills the first half and the down neighbour's list the second half |
| ParallelMpi.Padded | ParallelMPI/main.cpp:60-66 | a list received into a window of -1s fills exactly WorldSize cells |
| ParallelMpi.ReceivedWindow | ParallelMPI/main.cpp:60-66 | receiving into a window of -1s leaves the padded list in the window and changes nothing outside it |
| ParallelMpi.MergeLocal | ParallelMPI/main.cpp:68-69 | the rank writes its own entry, then the first half becomes its merge with the second half; the second half is unchanged and the own entry holds the rank |
| ParallelMpi.LocalStep | ParallelMPI/main.cpp:56-69 | after receiving and merging, the first half is the merge of the right list (with the rank's own entry set) and the down list, and it knows the rank itself |
| ParallelMpi.SendResults | ParallelMPI/main.cpp:72-79 | one message with tag 1 carrying the merged list goes to each existing neighbour among left and up, the left one first, and to no one else |
| ParallelMpi.SendsMatched | ParallelMPI/main.cpp:60-79 | every sent list goes to a rank that posts a receive from the sender (as its right or down neighbour) and fits that receive |
| ParallelMpi.KnownFrom | ParallelMPI/main.cpp:68-69 | the list of ranks from a given rank upward has one entry per rank |
| ParallelMpi.MergedKnowledge | ParallelMPI/main.cpp:60-69 | a rank whose right and down neighbours know the ranks from themselves upward ends up knowing the ranks from itself upward |
| ParallelMpi.Flood | ParallelMPI/main.cpp:54-88 | run rank by rank from the top, with each rank receiving the lists its right and down neighbours sent, every rank ends up knowing exactly the ranks from itself upward, and the first rank prints 0, 1, …, WorldSize-1 |

## Left out

- MPI start-up and shutdown (MPI_Init, MPI_Comm_rank, MPI_Comm_size, MPI_Finalize) are left out. The rank and the world size are parameters.
- Concurrency is not modelled. The processes run as one sequential simulation in a fixed valid order, so deadlock freedom and message buffering in real MPI are not modelled.
- Timing and console output are left out: the chrono measurement and the RunTime line in MatrixMul, Matrix::Print, SConnectedNodes::Print and rank 0's printing loop. Flood returns the list rank 0 prints.
- srand and rand are left out. The random draws are parameters of Fill, MasterRound and Benchmark.
- Matrix's destructor and the final delete[] are left out, since memory release is not modelled. memset of the receive buffer is modelled as writing -1 into every cell.
- Integers are unbounded. C++ int overflow is not modelled: the kernel's sums, MatrixSize*MatrixSize and the offsets.
- worldSize >= 2 is required everywhere in MatrixMul and Partition (Partition.RowsPerWorker, MatrixMul.Dispatch, MatrixMul.Worker, MatrixMul.Exchange, MatrixMul.MasterRound, MatrixMul.Benchmark and the rest). With a single process, line 82 of MatrixMul/Main.cpp divides by zero before anything else runs. That undefined behaviour is not modelled.
- MatrixMul.MatrixMul: requires C's buffer to be distinct from A's and B's. The source never passes aliased matrices, and an aliased kernel is not modelled.
- Mpi.Recv: requires the payload to fit the posted count, because a longer message is a truncation error in MPI and that error path is not modelled.
- The worker's receives take the worker's inbox as a parameter. Exchange delivers it from the coordinator's sends, and only the first two messages are read.
- MatrixMul.Worker: states the product only when both messages carry exactly the posted counts. A shorter message leaves the rest of the receive buffer as the allocation left it. Those cells are arbitrary, as in C++, so nothing is promised about the reply then.
- ParallelMpi.LocalStep and ParallelMpi.ReceiveNeighbours take the arriving lists as parameters rather than from a message queue. Flood supplies them from the messages the neighbours send with SendResults.
- ParallelMpi.Flood: covers two or more ranks only. With one rank the program's receive from itself can never complete (see SingleRankSelfNeighbour).
- ParallelMpi.CombineResults: WorldSize is a nat. With a negative value the C++ loop runs zero times.
