/**
 * The row-partitioned matrix multiplication benchmark: the Matrix buffer,
 * the multiplication kernel, and one size round of the coordinator/worker
 * scatter-compute-gather protocol, run as a single sequential simulation
 * in which a send yields a Message and a receive copies its payload.
 */
module MatrixMul {
  import opened Mpi
  import opened RowMajor
  import opened Partition

  /** Tag of the coordinator's dispatch messages. */
  const MASTER_TAG := 1
  /** Tag of the workers' result messages. */
  const WORKER_TAG := 2
  /** The matrix sizes the benchmark runs, in order. */
  const MATRIX_SIZES: seq<nat> := [64, 128, 256, 512, 1024, 2048]

  /**
   * A rows×columns matrix over a flat row-major buffer of rows*columns
   * cells; cell (i, j) is data[i*columns + j]. The extents and the buffer
   * are fixed at construction; the cells are written in place.
   */
  class Matrix {
    const rows: nat
    const columns: nat
    const data: array<int>

    ghost predicate Valid() {
      data.Length == rows * columns
    }

    /** A fresh buffer of Rows*Columns cells whose contents are not initialised. */
    constructor (Rows: nat, Columns: nat)
      ensures Valid() && fresh(data)
      ensures rows == Rows && columns == Columns
    {
      rows, columns := Rows, Columns;
      data := new int[Rows * Columns];
    }

    /**
     * Fills every cell from one draw of the random generator each,
     * cell i taking draws[i] % 10 - 5.
     */
    method Fill(draws: seq<nat>)
      requires Valid() && |draws| == rows * columns
      modifies data
      ensures forall i :: 0 <= i < data.Length ==> data[i] == FillValue(draws[i])
      ensures data[..] == Filled(draws)
    {
      var i := 0;
      while i < rows * columns
        invariant 0 <= i <= rows * columns
        invariant forall q :: 0 <= q < i ==> data[q] == FillValue(draws[q])
      {
        data[i] := FillValue(draws[i]);
        i := i + 1;
      }
    }
  }

  /** The cell value made from one non-negative draw: always in [-5, 4]. */
  function FillValue(draw: nat): (v: int)
    ensures -5 <= v <= 4
  {
    draw % 10 - 5
  }

  /**
   * The dense product kernel: C's first A.rows rows become A·B, computed in
   * place (each cell is reset to 0 and then accumulated, so what C held
   * before does not matter); C's remaining cells and A and B are unchanged.
   */
  method MatrixMul(A: Matrix, B: Matrix, C: Matrix)
    requires A.Valid() && B.Valid() && C.Valid()
    requires A.columns == B.rows && C.columns == B.columns && A.rows <= C.rows
    requires C.data != A.data && C.data != B.data
    modifies C.data
    ensures A.rows * C.columns <= C.data.Length
    ensures C.data[..A.rows * C.columns] == Product(A.data[..], B.data[..], A.rows, A.columns, B.columns)
    ensures C.data[A.rows * C.columns..] == old(C.data[A.rows * C.columns..])
  {
    ghost var a, b, c := A.data[..], B.data[..], C.data[..];
    ghost var n, m, p := A.rows, A.columns, B.columns;
    MulMono(n, C.rows, p);
    var i := 0;
    ghost var rowA, rowC := 0, 0;
    while i < A.rows
      invariant 0 <= i <= n
      invariant rowA == i * m && rowC == i * p
      invariant rowA <= |a| && rowC <= |c| == C.data.Length
      invariant C.data[..rowC] == Product(a[..rowA], b, i, m, p)
      invariant C.data[rowC..] == c[rowC..]
    {
      RowInBounds(i, n, m);
      RowInBounds(i, C.rows, p);
      ghost var before := C.data[..];
      MulRow(A, B, C, i);
      RowStep(a, b, c, before, C.data[..], i, m, p, rowA, rowC);
      rowA, rowC := rowA + m, rowC + p;
      i := i + 1;
    }
    assert a[..rowA] == a;
  }

  /**
   * One turn of the kernel's row loop, on the cells of C: if the first i
   * rows held the product of A's first i rows and the rest was untouched,
   * then after row i is written the first i + 1 rows hold the product of
   * A's first i + 1 rows and the rest is still untouched.
   */
  lemma RowStep(a: seq<int>, b: seq<int>, c: seq<int>, before: seq<int>, after: seq<int>,
                i: nat, m: nat, p: nat, rowA: nat, rowC: nat)
    requires rowA == i * m && rowC == i * p
    requires |b| == m * p && rowA + m <= |a| && |c| == |before| == |after| && rowC + p <= |c|
    requires before[..rowC] == Product(a[..rowA], b, i, m, p)
    requires before[rowC..] == c[rowC..]
    requires after[rowC..rowC + p] == RowTimes(a[rowA..rowA + m], b, p)
    requires forall q :: 0 <= q < |after| && !(rowC <= q < rowC + p) ==> after[q] == before[q]
    ensures rowA + m == (i + 1) * m && rowC + p == (i + 1) * p
    ensures after[..rowC + p] == Product(a[..rowA + m], b, i + 1, m, p)
    ensures after[rowC + p..] == c[rowC + p..]
  {
    MulSucc(i, m);
    MulSucc(i, p);
    ProductAppendRow(a, b, i, m, p);
    Splice(c, before, after, rowC, rowC + p);
  }

  /**
   * The kernel's loop over the columns of row i: every cell of C's row i
   * becomes the dot product of A's row i with the matching column of B,
   * that is, the row is A's row i times B; no other cell changes.
   */
  method MulRow(A: Matrix, B: Matrix, C: Matrix, i: nat)
    requires A.Valid() && B.Valid() && C.Valid()
    requires A.columns == B.rows && C.columns == B.columns && i < A.rows <= C.rows
    requires C.data != A.data && C.data != B.data
    modifies C.data
    ensures i * A.columns + A.columns <= A.data.Length && i * C.columns + C.columns <= C.data.Length
    ensures C.data[i * C.columns..i * C.columns + C.columns]
         == RowTimes(A.data[i * A.columns..i * A.columns + A.columns], B.data[..], B.columns)
    ensures forall q :: 0 <= q < C.data.Length && !(i * C.columns <= q < i * C.columns + C.columns)
              ==> C.data[q] == old(C.data[q])
  {
    RowInBounds(i, A.rows, A.columns);
    RowInBounds(i, C.rows, C.columns);
    ghost var row, b, p := A.data[i * A.columns..i * A.columns + A.columns], B.data[..], B.columns;
    ghost var base := i * C.columns;
    var j := 0;
    while j < B.columns
      invariant 0 <= j <= p
      invariant forall q :: 0 <= q < j ==> C.data[base + q] == Dot(row, b, p, q)
      invariant forall q :: 0 <= q < C.data.Length && !(base <= q < base + j) ==> C.data[q] == old(C.data[q])
    {
      MulCell(A, B, C, i, j);
      j := j + 1;
    }
    assert C.data[base..base + p] == RowTimes(row, b, p);
  }

  /**
   * The kernel's innermost loop for cell (i, j): resets C[i*C.columns + j]
   * to 0 and adds A[i][k] * B[k][j] for every k, leaving it at the dot
   * product of row i of A with column j of B; no other cell changes.
   */
  method MulCell(A: Matrix, B: Matrix, C: Matrix, i: nat, j: nat)
    requires A.Valid() && B.Valid() && C.Valid()
    requires A.columns == B.rows && C.columns == B.columns && i < A.rows <= C.rows && j < B.columns
    requires C.data != A.data && C.data != B.data
    modifies C.data
    ensures i * A.columns + A.columns <= A.data.Length && i * C.columns + j < C.data.Length
    ensures C.data[i * C.columns + j] == Dot(A.data[i * A.columns..i * A.columns + A.columns], B.data[..], B.columns, j)
    ensures forall q :: 0 <= q < C.data.Length && q != i * C.columns + j ==> C.data[q] == old(C.data[q])
  {
    RowInBounds(i, A.rows, A.columns);
    CellInBounds(i, j, C.rows, C.columns);
    ghost var row, b, p := A.data[i * A.columns..i * A.columns + A.columns], B.data[..], B.columns;
    C.data[i * C.columns + j] := 0;
    var k := 0;
    while k < A.columns
      invariant 0 <= k <= A.columns
      invariant k * p <= |b|
      invariant forall q :: 0 <= q < C.data.Length && q != i * C.columns + j ==> C.data[q] == old(C.data[q])
      invariant C.data[i * C.columns + j] == Dot(row[..k], b, p, j)
    {
      CellInBounds(k, j, B.rows, p);
      RowInBounds(k, B.rows, p);
      MulSucc(k, p);
      assert row[..k + 1][..k] == row[..k];
      C.data[i * C.columns + j] := C.data[i * C.columns + j] + A.data[i * A.columns + k] * B.data[k * B.columns + j];
      k := k + 1;
    }
    assert row[..A.columns] == row;
  }

  /** The cells a Matrix is filled with from a sequence of draws, one per cell. */
  function Filled(draws: seq<nat>): (cells: seq<int>)
    ensures |cells| == |draws|
    ensures forall i :: 0 <= i < |cells| ==> -5 <= cells[i] <= 4
  {
    seq(|draws|, i requires 0 <= i < |draws| => FillValue(draws[i]))
  }

  /**
   * The coordinator's dispatch loop for one size: for workers 1 .. worldSize-1
   * in rank order it sends the worker's block of A and then all of B, and
   * advances Offset by one block. Each worker thus finds exactly two
   * dispatch messages addressed to it: its own rows of A, then B.
   */
  method Dispatch(A: Matrix, B: Matrix, matrixSize: nat, worldSize: int) returns (sent: seq<Message>)
    requires worldSize >= 2
    requires A.Valid() && A.rows == matrixSize && A.columns == matrixSize
    requires B.Valid() && B.rows == matrixSize && B.columns == matrixSize
    ensures |sent| == 2 * (worldSize - 1)
    ensures forall msg :: msg in sent ==> msg.source == 0 && msg.tag == MASTER_TAG && 1 <= msg.dest < worldSize
    ensures forall w :: 1 <= w < worldSize ==>
              Inbox(sent, w) == [Message(0, w, MASTER_TAG, Block(A.data[..], matrixSize, worldSize, w)),
                                 Message(0, w, MASTER_TAG, B.data[..])]
  {
    var rowsToSend := RowsPerWorker(matrixSize, worldSize);
    ghost var a, b := A.data[..], B.data[..];
    sent := [];
    var offset := 0;
    var i := 1;
    while i < worldSize
      invariant 1 <= i <= worldSize
      invariant offset == Offset(matrixSize, worldSize, i)
      invariant DispatchedBefore(sent, a, b, matrixSize, worldSize, i)
    {
      OffsetStep(matrixSize, worldSize, i);
      var blockMsg := Message(0, i, MASTER_TAG, A.data[offset..offset + rowsToSend * matrixSize]);
      var operandMsg := Message(0, i, MASTER_TAG, B.data[..]);
      assert blockMsg.payload == Block(a, matrixSize, worldSize, i);
      DispatchStep(sent, blockMsg, operandMsg, a, b, matrixSize, worldSize, i);
      sent := sent + [blockMsg] + [operandMsg];
      offset := offset + rowsToSend * matrixSize;
      i := i + 1;
    }
  }

  /**
   * What the dispatch loop has sent before it reaches worker i: two messages
   * for each of workers 1 .. i-1, from the coordinator with the dispatch tag,
   * the worker's block of `a` first and then `b`.
   */
  ghost predicate DispatchedBefore(sent: seq<Message>, a: seq<int>, b: seq<int>, matrixSize: nat, worldSize: int, i: nat)
    requires worldSize >= 2 && 1 <= i <= worldSize && |a| == matrixSize * matrixSize
  {
    && |sent| == 2 * (i - 1)
    && (forall msg :: msg in sent ==> msg.source == 0 && msg.tag == MASTER_TAG && 1 <= msg.dest < i)
    && (forall w :: 1 <= w < i ==>
          Inbox(sent, w) == [Message(0, w, MASTER_TAG, Block(a, matrixSize, worldSize, w)),
                             Message(0, w, MASTER_TAG, b)])
  }

  /** One turn of the dispatch loop serves worker i and no other. */
  lemma DispatchStep(sent: seq<Message>, blockMsg: Message, operandMsg: Message,
                     a: seq<int>, b: seq<int>, matrixSize: nat, worldSize: int, i: nat)
    requires worldSize >= 2 && 1 <= i < worldSize && |a| == matrixSize * matrixSize
    requires DispatchedBefore(sent, a, b, matrixSize, worldSize, i)
    requires blockMsg == Message(0, i, MASTER_TAG, Block(a, matrixSize, worldSize, i))
    requires operandMsg == Message(0, i, MASTER_TAG, b)
    ensures DispatchedBefore(sent + [blockMsg] + [operandMsg], a, b, matrixSize, worldSize, i + 1)
  {
    InboxEmpty(sent, i);
    InboxSendPair(sent, blockMsg, operandMsg, i);
  }

  /**
   * One size round of worker `worldRank`: receives RowsPerWorker rows of A
   * and all of B from the coordinator, multiplies them with the kernel and
   * sends the product block back. When the two messages carry exactly the
   * counts the worker posts, the reply is their product.
   */
  method Worker(worldRank: int, worldSize: int, matrixSize: nat, inbox: seq<Message>) returns (reply: Message)
    requires worldSize >= 2 && 1 <= worldRank < worldSize
    requires |inbox| >= 2
    requires inbox[0].source == 0 && inbox[0].tag == MASTER_TAG
    requires inbox[1].source == 0 && inbox[1].tag == MASTER_TAG
    requires |inbox[0].payload| <= RowsPerWorker(matrixSize, worldSize) * matrixSize
    requires |inbox[1].payload| <= matrixSize * matrixSize
    ensures reply.source == worldRank && reply.dest == 0 && reply.tag == WORKER_TAG
    ensures |reply.payload| == RowsPerWorker(matrixSize, worldSize) * matrixSize
    ensures |inbox[0].payload| == RowsPerWorker(matrixSize, worldSize) * matrixSize
            && |inbox[1].payload| == matrixSize * matrixSize
            ==> reply.payload == Product(inbox[0].payload, inbox[1].payload,
                                         RowsPerWorker(matrixSize, worldSize), matrixSize, matrixSize)
  {
    var rowsToReceive := RowsPerWorker(matrixSize, worldSize);
    var A := new Matrix(rowsToReceive, matrixSize);
    var B := new Matrix(matrixSize, matrixSize);
    var C := new Matrix(rowsToReceive, matrixSize);
    Recv(A.data, 0, rowsToReceive * matrixSize, inbox[0]);
    Recv(B.data, 0, matrixSize * matrixSize, inbox[1]);
    MatrixMul(A, B, C);
    assert C.data[..] == C.data[..rowsToReceive * matrixSize];
    if |inbox[0].payload| == rowsToReceive * matrixSize && |inbox[1].payload| == matrixSize * matrixSize {
      assert A.data[..] == inbox[0].payload;
      assert B.data[..] == inbox[1].payload;
    }
    reply := Message(worldRank, 0, WORKER_TAG, C.data[..]);
  }

  /**
   * What the coordinator's collect loop leaves in C: starting from the cells
   * `c`, the reply of worker w (replies[w-1]) is copied to Offset(w), for
   * w = 1, 2, ... in order.
   */
  function Gathered(c: seq<int>, replies: seq<Message>, matrixSize: nat, worldSize: int): (r: seq<int>)
    requires worldSize >= 2 && |c| == matrixSize * matrixSize && |replies| <= worldSize - 1
    requires forall k :: 0 <= k < |replies| ==> |replies[k].payload| <= BlockLength(matrixSize, worldSize)
    ensures |r| == |c|
    decreases |replies|
  {
    if replies == [] then c
    else
      var w := |replies|;
      OffsetStep(matrixSize, worldSize, w);
      Overwrite(Gathered(c, replies[..w - 1], matrixSize, worldSize),
                Offset(matrixSize, worldSize, w), replies[w - 1].payload)
  }

  /** The payloads of `replies`, one after another. */
  function Payloads(replies: seq<Message>): seq<int>
  {
    if replies == [] then [] else Payloads(replies[..|replies| - 1]) + replies[|replies| - 1].payload
  }

  /**
   * When every reply has exactly one block's worth of cells, the collect
   * loop lays the replies end to end from offset 0 and leaves every cell
   * after the last block as it was.
   */
  lemma {:induction false} GatheredExact(c: seq<int>, replies: seq<Message>, matrixSize: nat, worldSize: int)
    requires worldSize >= 2 && |c| == matrixSize * matrixSize && |replies| <= worldSize - 1
    requires forall k :: 0 <= k < |replies| ==> |replies[k].payload| == BlockLength(matrixSize, worldSize)
    ensures Offset(matrixSize, worldSize, |replies| + 1) <= |c|
    ensures |Payloads(replies)| == Offset(matrixSize, worldSize, |replies| + 1)
    ensures Gathered(c, replies, matrixSize, worldSize)
         == Payloads(replies) + c[Offset(matrixSize, worldSize, |replies| + 1)..]
  {
    var w := |replies|;
    if w == 0 {
      assert Offset(matrixSize, worldSize, 1) == 0;
    } else {
      OffsetStep(matrixSize, worldSize, w);
      var init := replies[..w - 1];
      GatheredExact(c, init, matrixSize, worldSize);
      var prev := Gathered(c, init, matrixSize, worldSize);
      var off, p := Offset(matrixSize, worldSize, w), replies[w - 1].payload;
      assert prev[..off] == Payloads(init);
      assert prev[off + |p|..] == c[Offset(matrixSize, worldSize, w + 1)..];
    }
  }

  /**
   * When worker w's reply is the product of its block of `a` with `b`, the
   * replies laid end to end are the product of the rows of `a` that the
   * blocks cover: the first |replies| * RowsPerWorker rows.
   */
  lemma {:induction false} AssembledProduct(a: seq<int>, b: seq<int>, replies: seq<Message>, matrixSize: nat, worldSize: int)
    requires worldSize >= 2 && |a| == matrixSize * matrixSize && |b| == matrixSize * matrixSize
    requires |replies| <= worldSize - 1
    requires forall k :: 0 <= k < |replies| ==>
               replies[k].payload == Product(Block(a, matrixSize, worldSize, k + 1), b,
                                             RowsPerWorker(matrixSize, worldSize), matrixSize, matrixSize)
    ensures Offset(matrixSize, worldSize, |replies| + 1) <= |a|
    ensures Offset(matrixSize, worldSize, |replies| + 1) == (|replies| * RowsPerWorker(matrixSize, worldSize)) * matrixSize
    ensures Payloads(replies)
         == Product(a[..Offset(matrixSize, worldSize, |replies| + 1)], b,
                    |replies| * RowsPerWorker(matrixSize, worldSize), matrixSize, matrixSize)
  {
    var K := |replies|;
    OffsetRows(matrixSize, worldSize, K + 1);
    if K == 0 {
      assert Offset(matrixSize, worldSize, 1) == 0;
    } else {
      AssembledProduct(a, b, replies[..K - 1], matrixSize, worldSize);
      BlockProductStep(a, b, matrixSize, worldSize, K);
    }
  }

  /**
   * One size round of the whole protocol, simulated in sequence: the
   * coordinator dispatches, every worker computes its block, and the
   * coordinator collects the blocks into C. The covered rows of C become the
   * product of the same rows of A with B; the last matrixSize % (worldSize-1)
   * rows are never written. When the worker count divides the size, C is A·B.
   */
  method Exchange(A: Matrix, B: Matrix, C: Matrix, matrixSize: nat, worldSize: int)
    requires worldSize >= 2
    requires A.Valid() && A.rows == matrixSize && A.columns == matrixSize
    requires B.Valid() && B.rows == matrixSize && B.columns == matrixSize
    requires C.Valid() && C.rows == matrixSize && C.columns == matrixSize
    requires C.data != A.data && C.data != B.data
    modifies C.data
    ensures Covered(matrixSize, worldSize) <= matrixSize * matrixSize
    ensures Covered(matrixSize, worldSize)
         == ((worldSize - 1) * RowsPerWorker(matrixSize, worldSize)) * matrixSize
    ensures C.data[..Covered(matrixSize, worldSize)]
         == Product(A.data[..Covered(matrixSize, worldSize)], B.data[..],
                    (worldSize - 1) * RowsPerWorker(matrixSize, worldSize), matrixSize, matrixSize)
    ensures C.data[Covered(matrixSize, worldSize)..] == old(C.data[Covered(matrixSize, worldSize)..])
    ensures matrixSize % (worldSize - 1) == 0
            ==> C.data[..] == Product(A.data[..], B.data[..], matrixSize, matrixSize, matrixSize)
  {
    ghost var a, b, c := A.data[..], B.data[..], C.data[..];
    ghost var r := RowsPerWorker(matrixSize, worldSize);
    var sent := Dispatch(A, B, matrixSize, worldSize);
    var replies: seq<Message> := [];
    var w := 1;
    while w < worldSize
      invariant 1 <= w <= worldSize && |replies| == w - 1
      invariant C.data[..] == c
      invariant forall k :: 0 <= k < |replies| ==>
                  replies[k].source == k + 1 && replies[k].tag == WORKER_TAG
                  && replies[k].payload == Product(Block(a, matrixSize, worldSize, k + 1), b, r, matrixSize, matrixSize)
    {
      var reply := Worker(w, worldSize, matrixSize, Inbox(sent, w));
      replies := replies + [reply];
      w := w + 1;
    }
    Collect(C, replies, matrixSize, worldSize);
    CollectedProduct(c, a, b, replies, matrixSize, worldSize);
    ghost var covered := Covered(matrixSize, worldSize);
    assert C.data[..covered] == C.data[..][..covered];
    assert C.data[covered..] == C.data[..][covered..];
    if matrixSize % (worldSize - 1) == 0 {
      FullCover(matrixSize, worldSize);
      assert a[..covered] == a;
      assert C.data[..] == C.data[..covered];
    }
  }

  /**
   * One size round as the coordinator runs it: allocate A, B and C, fill A
   * and B from the draws, scatter, let the workers compute, and gather into
   * C. The covered rows of C are the product of the same rows of the filled
   * A with the filled B, and all of C is that product when the worker count
   * divides the size.
   */
  method MasterRound(matrixSize: nat, worldSize: int, drawsA: seq<nat>, drawsB: seq<nat>) returns (C: Matrix)
    requires worldSize >= 2
    requires |drawsA| == matrixSize * matrixSize && |drawsB| == matrixSize * matrixSize
    ensures fresh(C) && fresh(C.data)
    ensures C.Valid() && C.rows == matrixSize && C.columns == matrixSize
    ensures RoundResult(C.data[..], drawsA, drawsB, matrixSize, worldSize)
  {
    var A := new Matrix(matrixSize, matrixSize);
    var B := new Matrix(matrixSize, matrixSize);
    C := new Matrix(matrixSize, matrixSize);
    A.Fill(drawsA);
    B.Fill(drawsB);
    Exchange(A, B, C, matrixSize, worldSize);
  }

  /**
   * What one size round leaves in C, given the draws A and B were filled
   * from: the covered rows hold the product of the same rows of A with B,
   * and every row holds it when the worker count divides the size.
   */
  ghost predicate RoundResult(cells: seq<int>, drawsA: seq<nat>, drawsB: seq<nat>, matrixSize: nat, worldSize: int)
    requires worldSize >= 2
    requires |drawsA| == matrixSize * matrixSize && |drawsB| == matrixSize * matrixSize
  {
    UncoveredTail(matrixSize, worldSize);
    && |cells| == matrixSize * matrixSize
    && cells[..Covered(matrixSize, worldSize)]
       == Product(Filled(drawsA)[..Covered(matrixSize, worldSize)], Filled(drawsB),
                  (worldSize - 1) * RowsPerWorker(matrixSize, worldSize), matrixSize, matrixSize)
    && (matrixSize % (worldSize - 1) == 0
        ==> cells == Product(Filled(drawsA), Filled(drawsB), matrixSize, matrixSize, matrixSize))
  }

  /**
   * The benchmark: one round per entry of MATRIX_SIZES, in order, each from
   * its own draws. Round k's C satisfies RoundResult for size
   * MATRIX_SIZES[k]; with a power-of-two worker count up to 64 every size
   * is divided evenly, so every round yields the full product.
   */
  method Benchmark(worldSize: int, drawsA: seq<seq<nat>>, drawsB: seq<seq<nat>>) returns (results: seq<seq<int>>)
    requires worldSize >= 2
    requires |drawsA| == |MATRIX_SIZES| && |drawsB| == |MATRIX_SIZES|
    requires forall k :: 0 <= k < |MATRIX_SIZES| ==>
               |drawsA[k]| == MATRIX_SIZES[k] * MATRIX_SIZES[k] && |drawsB[k]| == MATRIX_SIZES[k] * MATRIX_SIZES[k]
    ensures |results| == |MATRIX_SIZES|
    ensures forall k :: 0 <= k < |results| ==>
              RoundResult(results[k], drawsA[k], drawsB[k], MATRIX_SIZES[k], worldSize)
    ensures worldSize - 1 in {1, 2, 4, 8, 16, 32, 64} ==>
              forall k :: 0 <= k < |results| ==>
                results[k] == Product(Filled(drawsA[k]), Filled(drawsB[k]), MATRIX_SIZES[k], MATRIX_SIZES[k], MATRIX_SIZES[k])
  {
    results := [];
    var k := 0;
    while k < |MATRIX_SIZES|
      invariant 0 <= k <= |MATRIX_SIZES| && |results| == k
      invariant forall q :: 0 <= q < k ==> RoundResult(results[q], drawsA[q], drawsB[q], MATRIX_SIZES[q], worldSize)
    {
      var C := MasterRound(MATRIX_SIZES[k], worldSize, drawsA[k], drawsB[k]);
      results := results + [C.data[..]];
      k := k + 1;
    }
    if worldSize - 1 in {1, 2, 4, 8, 16, 32, 64} {
      SizesDivisible(worldSize - 1);
    }
  }

  /** Every benchmark size is a multiple of each power of two up to 64. */
  lemma SizesDivisible(workers: nat)
    requires workers in {1, 2, 4, 8, 16, 32, 64}
    ensures forall k :: 0 <= k < |MATRIX_SIZES| ==> MATRIX_SIZES[k] % workers == 0
  {
  }

  /**
   * Collecting the worker products into the cells `c` yields the product of
   * the covered rows of `a` with `b` followed by the uncovered tail of `c`.
   */
  lemma CollectedProduct(c: seq<int>, a: seq<int>, b: seq<int>, replies: seq<Message>, matrixSize: nat, worldSize: int)
    requires worldSize >= 2 && |replies| == worldSize - 1
    requires |c| == matrixSize * matrixSize && |a| == matrixSize * matrixSize && |b| == matrixSize * matrixSize
    requires forall k :: 0 <= k < |replies| ==> |replies[k].payload| == BlockLength(matrixSize, worldSize)
    requires forall k :: 0 <= k < |replies| ==>
               replies[k].payload == Product(Block(a, matrixSize, worldSize, k + 1), b,
                                             RowsPerWorker(matrixSize, worldSize), matrixSize, matrixSize)
    ensures Covered(matrixSize, worldSize) <= matrixSize * matrixSize
    ensures Covered(matrixSize, worldSize)
         == ((worldSize - 1) * RowsPerWorker(matrixSize, worldSize)) * matrixSize
    ensures Gathered(c, replies, matrixSize, worldSize)[..Covered(matrixSize, worldSize)]
         == Product(a[..Covered(matrixSize, worldSize)], b,
                    (worldSize - 1) * RowsPerWorker(matrixSize, worldSize), matrixSize, matrixSize)
    ensures Gathered(c, replies, matrixSize, worldSize)[Covered(matrixSize, worldSize)..]
         == c[Covered(matrixSize, worldSize)..]
  {
    UncoveredTail(matrixSize, worldSize);
    OffsetRows(matrixSize, worldSize, worldSize);
    GatheredExact(c, replies, matrixSize, worldSize);
    AssembledProduct(a, b, replies, matrixSize, worldSize);
    var covered := Covered(matrixSize, worldSize);
    assert |replies| + 1 == worldSize;
    var g, p := Gathered(c, replies, matrixSize, worldSize), Payloads(replies);
    assert g == p + c[covered..] && |p| == covered;
    assert g[..covered] == p;
    assert g[covered..] == c[covered..];
  }

  /**
   * The coordinator's collect loop for one size: for workers 1 .. worldSize-1
   * in rank order, receives the worker's result block into C at Offset, then
   * advances Offset by one block.
   */
  method Collect(C: Matrix, replies: seq<Message>, matrixSize: nat, worldSize: int)
    requires worldSize >= 2
    requires C.Valid() && C.rows == matrixSize && C.columns == matrixSize
    requires |replies| == worldSize - 1
    requires forall k :: 0 <= k < |replies| ==>
               replies[k].source == k + 1 && replies[k].tag == WORKER_TAG
               && |replies[k].payload| <= BlockLength(matrixSize, worldSize)
    modifies C.data
    ensures C.data[..] == Gathered(old(C.data[..]), replies, matrixSize, worldSize)
  {
    var rowsToSend := RowsPerWorker(matrixSize, worldSize);
    var offset := 0;
    var i := 1;
    while i < worldSize
      invariant 1 <= i <= worldSize
      invariant offset == Offset(matrixSize, worldSize, i)
      invariant C.data[..] == Gathered(old(C.data[..]), replies[..i - 1], matrixSize, worldSize)
    {
      OffsetStep(matrixSize, worldSize, i);
      Recv(C.data, offset, rowsToSend * matrixSize, replies[i - 1]);
      assert replies[..i][..i - 1] == replies[..i - 1];
      offset := offset + matrixSize * rowsToSend;
      i := i + 1;
    }
    assert replies[..worldSize - 1] == replies;
  }
}
