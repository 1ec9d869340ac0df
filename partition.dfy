/**
 * The partition plan of the row-partitioned multiplication: with
 * W = worldSize - 1 workers, each gets matrixSize / W contiguous rows of the
 * n×n operand A, worker w (1-based) the rows [(w-1)*r, w*r). Offsets are
 * flat cell indices into the row-major buffers of A and C.
 */
module Partition {
  import opened RowMajor

  /**
   * Rows per worker: the coordinator's RowsToSend and each worker's
   * RowsToReceive, which both sides compute from the same two numbers
   * without exchanging them. It counts how many whole groups of
   * W = worldSize - 1 rows the matrix holds; RowsPerWorkerQuotient shows
   * that this is the C++ quotient MatrixSize / (WorldSize - 1).
   */
  function RowsPerWorker(matrixSize: nat, worldSize: int): nat
    requires worldSize >= 2
    decreases matrixSize
  {
    if matrixSize < worldSize - 1 then 0 else 1 + RowsPerWorker(matrixSize - (worldSize - 1), worldSize)
  }

  /**
   * RowsPerWorker is the floor of matrixSize / W: W blocks of that many rows
   * fit in the matrix, and one more row per worker would not.
   */
  lemma {:induction false} RowsPerWorkerFloor(matrixSize: nat, worldSize: int)
    requires worldSize >= 2
    ensures var r, W := RowsPerWorker(matrixSize, worldSize), worldSize - 1;
            r * W <= matrixSize < r * W + W
    decreases matrixSize
  {
    var W := worldSize - 1;
    if matrixSize >= W {
      RowsPerWorkerFloor(matrixSize - W, worldSize);
      MulSucc(RowsPerWorker(matrixSize - W, worldSize), W);
    }
  }

  /** RowsPerWorker is MatrixSize / (WorldSize - 1), and MatrixSize % (WorldSize - 1) rows are left over. */
  lemma RowsPerWorkerQuotient(matrixSize: nat, worldSize: int)
    requires worldSize >= 2
    ensures RowsPerWorker(matrixSize, worldSize) == matrixSize / (worldSize - 1)
    ensures matrixSize - RowsPerWorker(matrixSize, worldSize) * (worldSize - 1) == matrixSize % (worldSize - 1)
  {
    var W := worldSize - 1;
    RowsPerWorkerFloor(matrixSize, worldSize);
    assert matrixSize == (matrixSize / W) * W + matrixSize % W;
    QuotientUnique(matrixSize, W, RowsPerWorker(matrixSize, worldSize), matrixSize / W);
  }

  /** Two quotients of n by d that both leave a remainder in [0, d) are equal. */
  lemma QuotientUnique(n: nat, d: nat, x: nat, y: nat)
    requires x * d <= n < x * d + d && y * d <= n < y * d + d
    ensures x == y
  {
    if x < y {
      MulSucc(x, d);
      MulMono(x + 1, y, d);
    } else if y < x {
      MulSucc(y, d);
      MulMono(y + 1, x, d);
    }
  }

  /** Cells in one worker's block: RowsPerWorker rows of matrixSize cells. */
  function BlockLength(matrixSize: nat, worldSize: int): nat
    requires worldSize >= 2
  {
    RowsPerWorker(matrixSize, worldSize) * matrixSize
  }

  /**
   * Where worker w's block starts in A and in C: the coordinator's Offset
   * when it reaches worker w, after w - 1 advances by one block.
   * Offset(.., worldSize) is where the loop leaves it, the end of the last block.
   */
  function Offset(matrixSize: nat, worldSize: int, w: nat): nat
    requires worldSize >= 2 && 1 <= w <= worldSize
  {
    (w - 1) * BlockLength(matrixSize, worldSize)
  }

  /**
   * The cells that some worker's block covers: the first
   * (worldSize - 1) * RowsPerWorker rows. Exactly the last
   * matrixSize % (worldSize - 1) rows are left out, and none are
   * left out exactly when the worker count divides the size.
   */
  function Covered(matrixSize: nat, worldSize: int): nat
    requires worldSize >= 2
  {
    Offset(matrixSize, worldSize, worldSize)
  }

  /**
   * The covered prefix fits in the n×n buffer and leaves out exactly the
   * last n % W rows; it is the whole buffer exactly when W divides n
   * (or the matrix is empty).
   */
  lemma UncoveredTail(matrixSize: nat, worldSize: int)
    requires worldSize >= 2
    ensures Covered(matrixSize, worldSize) <= matrixSize * matrixSize
    ensures matrixSize * matrixSize - Covered(matrixSize, worldSize) == (matrixSize % (worldSize - 1)) * matrixSize
    ensures Covered(matrixSize, worldSize) == matrixSize * matrixSize
            <==> matrixSize == 0 || matrixSize % (worldSize - 1) == 0
  {
    RowsPerWorkerQuotient(matrixSize, worldSize);
    CoveredRows(matrixSize, worldSize - 1, RowsPerWorker(matrixSize, worldSize));
  }

  /**
   * When the worker count divides the size, the workers' blocks cover all
   * matrixSize rows and so the whole n×n buffer.
   */
  lemma FullCover(matrixSize: nat, worldSize: int)
    requires worldSize >= 2 && matrixSize % (worldSize - 1) == 0
    ensures (worldSize - 1) * RowsPerWorker(matrixSize, worldSize) == matrixSize
    ensures Covered(matrixSize, worldSize) == matrixSize * matrixSize
  {
    RowsPerWorkerQuotient(matrixSize, worldSize);
    UncoveredTail(matrixSize, worldSize);
  }

  /** W blocks of r rows, r = n / W, leave exactly n % W of the n rows over. */
  lemma CoveredRows(n: nat, W: nat, r: nat)
    requires W >= 1 && r == n / W
    ensures W * (r * n) <= n * n
    ensures n * n - W * (r * n) == (n % W) * n
    ensures W * (r * n) == n * n <==> n == 0 || n % W == 0
  {
    assert W * (r * n) == (W * r) * n;
    assert n * n - (W * r) * n == (n - W * r) * n;
    if n != 0 && n % W != 0 {
      assert (n % W) * n > 0;
    }
  }

  /**
   * Worker w's block ends where worker w + 1's begins, and no block
   * reaches past the covered prefix of the n×n buffer.
   */
  lemma OffsetStep(matrixSize: nat, worldSize: int, w: nat)
    requires worldSize >= 2 && 1 <= w < worldSize
    ensures Offset(matrixSize, worldSize, w) + BlockLength(matrixSize, worldSize)
         == Offset(matrixSize, worldSize, w + 1)
    ensures Offset(matrixSize, worldSize, w + 1) <= Covered(matrixSize, worldSize) <= matrixSize * matrixSize
  {
    UncoveredTail(matrixSize, worldSize);
    var L := BlockLength(matrixSize, worldSize);
    MulSucc(w - 1, L);
    MulMono(w, worldSize - 1, L);
  }

  /** The blocks of two different workers do not overlap. */
  lemma BlocksDisjoint(matrixSize: nat, worldSize: int, v: nat, w: nat)
    requires worldSize >= 2 && 1 <= v < w < worldSize
    ensures Offset(matrixSize, worldSize, v) + BlockLength(matrixSize, worldSize)
         <= Offset(matrixSize, worldSize, w)
  {
    var L := BlockLength(matrixSize, worldSize);
    MulSucc(v - 1, L);
    MulMono(v, w - 1, L);
  }

  /** Every covered cell q lies in the block of worker q / BlockLength + 1. */
  lemma CellOwner(matrixSize: nat, worldSize: int, q: nat)
    requires worldSize >= 2 && q < Covered(matrixSize, worldSize)
    ensures BlockLength(matrixSize, worldSize) > 0
    ensures var w := q / BlockLength(matrixSize, worldSize) + 1;
            1 <= w < worldSize
            && Offset(matrixSize, worldSize, w) <= q
            && q < Offset(matrixSize, worldSize, w) + BlockLength(matrixSize, worldSize)
  {
    var L, W := BlockLength(matrixSize, worldSize), worldSize - 1;
    assert q < W * L;
    var k, rem := q / L, q % L;
    assert q == k * L + rem && 0 <= rem < L;
    if k >= W {
      MulMono(W, k, L);
    }
    assert Offset(matrixSize, worldSize, k + 1) == k * L;
  }

  /** Offset(w) in rows: (w - 1) * RowsPerWorker rows of matrixSize cells. */
  lemma OffsetRows(matrixSize: nat, worldSize: int, w: nat)
    requires worldSize >= 2 && 1 <= w <= worldSize
    ensures Offset(matrixSize, worldSize, w) == ((w - 1) * RowsPerWorker(matrixSize, worldSize)) * matrixSize
  {
    MulAssoc(w - 1, RowsPerWorker(matrixSize, worldSize), matrixSize);
  }

  /**
   * Worker w's slice of A: the BlockLength cells from Offset(w), i.e.
   * rows [(w-1)*r, w*r) of the n×n buffer `a`.
   */
  function Block(a: seq<int>, matrixSize: nat, worldSize: int, w: nat): (blk: seq<int>)
    requires worldSize >= 2 && 1 <= w < worldSize && |a| == matrixSize * matrixSize
    ensures |blk| == BlockLength(matrixSize, worldSize)
  {
    OffsetStep(matrixSize, worldSize, w);
    a[Offset(matrixSize, worldSize, w)..Offset(matrixSize, worldSize, w) + BlockLength(matrixSize, worldSize)]
  }

  /**
   * Size 64 on 5 processes (4 workers): 16 rows each, worker 1 gets rows
   * [0, 16), worker 4 rows [48, 64), and every row is covered.
   */
  lemma EvenSplitExample()
    ensures RowsPerWorker(64, 5) == 16
    ensures Offset(64, 5, 1) == 0 && Offset(64, 5, 4) == 48 * 64
    ensures Covered(64, 5) == 64 * 64
  {
    RowsPerWorkerQuotient(64, 5);
  }

  /** Size 65 on 4 workers: 16 rows each, and row 64, the last one, belongs to no worker. */
  lemma UnevenSplitExample()
    ensures RowsPerWorker(65, 5) == 16
    ensures Covered(65, 5) == 64 * 65
  {
    RowsPerWorkerQuotient(65, 5);
  }

  /**
   * Adding worker w's block to the rows already covered by workers
   * 1 .. w-1 adds the product of that block to the product of the covered rows.
   */
  lemma BlockProductStep(a: seq<int>, b: seq<int>, matrixSize: nat, worldSize: int, w: nat)
    requires worldSize >= 2 && 1 <= w < worldSize
    requires |a| == matrixSize * matrixSize && |b| == matrixSize * matrixSize
    ensures Offset(matrixSize, worldSize, w + 1) <= |a|
    ensures Offset(matrixSize, worldSize, w) == ((w - 1) * RowsPerWorker(matrixSize, worldSize)) * matrixSize
    ensures Offset(matrixSize, worldSize, w + 1) == (w * RowsPerWorker(matrixSize, worldSize)) * matrixSize
    ensures Product(a[..Offset(matrixSize, worldSize, w + 1)], b, w * RowsPerWorker(matrixSize, worldSize), matrixSize, matrixSize)
         == Product(a[..Offset(matrixSize, worldSize, w)], b, (w - 1) * RowsPerWorker(matrixSize, worldSize), matrixSize, matrixSize)
            + Product(Block(a, matrixSize, worldSize, w), b, RowsPerWorker(matrixSize, worldSize), matrixSize, matrixSize)
  {
    var r, n := RowsPerWorker(matrixSize, worldSize), matrixSize;
    OffsetStep(n, worldSize, w);
    OffsetRows(n, worldSize, w);
    OffsetRows(n, worldSize, w + 1);
    var mid, end := Offset(n, worldSize, w), Offset(n, worldSize, w + 1);
    MulSucc(w - 1, r);
    var prefix := a[..end];
    ProductSplit(prefix, b, (w - 1) * r, r, n, n);
    assert prefix[..mid] == a[..mid];
    assert prefix[mid..] == Block(a, n, worldSize, w);
  }
}
