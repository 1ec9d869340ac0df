/**
 * Row-major matrices as flat sequences of integers, and the dense product
 * the multiplication kernel computes, given as a reference definition.
 * An r×c matrix is a sequence of r*c cells; cell (i, j) sits at i*c + j.
 */
module RowMajor {

  /** The flat index of cell (i, j) lies inside an r×c buffer. */
  lemma CellInBounds(i: nat, j: nat, r: nat, c: nat)
    requires i < r && j < c
    ensures i * c + j < r * c
  {
    RowInBounds(i, r, c);
  }

  /** Row i of an r×c buffer, the cells [i*c, i*c + c), lies inside it. */
  lemma RowInBounds(i: nat, r: nat, c: nat)
    requires i < r
    ensures 0 <= i * c && i * c + c <= r * c
  {
    assert i * c + c == (i + 1) * c;
  }

  /**
   * The dot product of `row` with column j of the row-major matrix `b`,
   * which has p columns: the sum over k < |row| of row[k] * b[k*p + j].
   */
  function Dot(row: seq<int>, b: seq<int>, p: nat, j: nat): int
    requires j < p && |row| * p <= |b|
    decreases |row|
  {
    if row == [] then 0
    else
      var k := |row| - 1;
      assert k * p + p == |row| * p;
      Dot(row[..k], b, p, j) + row[k] * b[k * p + j]
  }

  /** The row vector `row` times the |row|×p matrix `b`: one row of p cells. */
  function RowTimes(row: seq<int>, b: seq<int>, p: nat): (r: seq<int>)
    requires |row| * p <= |b|
  {
    seq(p, j requires 0 <= j < p => Dot(row, b, p, j))
  }

  /**
   * The n×p product of the n×m matrix `a` and the m×p matrix `b`,
   * assembled row by row in the order the kernel writes them.
   */
  function Product(a: seq<int>, b: seq<int>, n: nat, m: nat, p: nat): (c: seq<int>)
    requires |a| == n * m && |b| == m * p
    ensures |c| == n * p
    decreases n
  {
    if n == 0 then []
    else
      MulSucc(n - 1, m);
      MulSucc(n - 1, p);
      Product(a[..|a| - m], b, n - 1, m, p) + RowTimes(a[|a| - m..], b, p)
  }

  /** Adding one row to `a` adds one row, its product with `b`, to the product. */
  lemma ProductAppendRow(a: seq<int>, b: seq<int>, i: nat, m: nat, p: nat)
    requires (i + 1) * m <= |a| && |b| == m * p
    ensures i * m + m == (i + 1) * m
    ensures Product(a[..(i + 1) * m], b, i + 1, m, p)
         == Product(a[..i * m], b, i, m, p) + RowTimes(a[i * m..i * m + m], b, p)
  {
    assert i * m + m == (i + 1) * m;
    var pre := a[..(i + 1) * m];
    assert pre[..i * m] == a[..i * m];
    assert pre[i * m..] == a[i * m..i * m + m];
  }

  /**
   * Cell (i, j) of the product is the dot product of row i of `a` with
   * column j of `b`: the defining equation of the matrix product.
   */
  lemma ProductCell(a: seq<int>, b: seq<int>, n: nat, m: nat, p: nat, i: nat, j: nat)
    requires |a| == n * m && |b| == m * p
    requires i < n && j < p
    ensures i * m + m <= |a| && i * p + j < n * p
    ensures Product(a, b, n, m, p)[i * p + j] == Dot(a[i * m..i * m + m], b, p, j)
  {
    RowInBounds(i, n, m);
    CellInBounds(i, j, n, p);
    MulSucc(i, m);
    ProductSplit(a, b, i + 1, n - (i + 1), m, p);
    ProductAppendRow(a, b, i, m, p);
    var before := Product(a[..i * m], b, i, m, p);
    var row := RowTimes(a[i * m..i * m + m], b, p);
    var after := Product(a[(i + 1) * m..], b, n - (i + 1), m, p);
    assert Product(a, b, n, m, p) == before + row + after;
    assert |before| == i * p;
  }

  /**
   * The product of a stack of two row blocks is the stack of their products:
   * multiplying the first n1 rows and the next n2 rows separately and
   * concatenating the results gives the product of all n1 + n2 rows.
   */
  lemma ProductSplit(a: seq<int>, b: seq<int>, n1: nat, n2: nat, m: nat, p: nat)
    requires |a| == (n1 + n2) * m && |b| == m * p
    ensures n1 * m <= |a| && |a| - n1 * m == n2 * m
    ensures Product(a, b, n1 + n2, m, p)
         == Product(a[..n1 * m], b, n1, m, p) + Product(a[n1 * m..], b, n2, m, p)
  {
    MulAdd(n1, n2, m);
    assert a == a[..n1 * m] + a[n1 * m..];
    ProductConcat(a[..n1 * m], a[n1 * m..], b, n1, n2, m, p);
  }

  /** ProductSplit for a matrix given as its two row blocks `a1` (n1 rows) and `a2` (n2 rows). */
  lemma {:induction false} ProductConcat(a1: seq<int>, a2: seq<int>, b: seq<int>, n1: nat, n2: nat, m: nat, p: nat)
    requires |a1| == n1 * m && |a2| == n2 * m && |b| == m * p
    ensures |a1 + a2| == (n1 + n2) * m
    ensures Product(a1 + a2, b, n1 + n2, m, p) == Product(a1, b, n1, m, p) + Product(a2, b, n2, m, p)
  {
    MulAdd(n1, n2, m);
    if n2 == 0 {
      assert a1 + a2 == a1;
    } else {
      var n := n1 + n2;
      MulSucc(n2 - 1, m);
      var k := |a2| - m;
      ProductConcat(a1, a2[..k], b, n1, n2 - 1, m, p);
      assert (a1 + a2)[..|a1| + k] == a1 + a2[..k];
      assert (a1 + a2)[|a1| + k..] == a2[k..];
    }
  }

  /**
   * Writing the window [lo, hi) of `before` gives `after`: the prefix up to
   * hi is the old prefix up to lo followed by the new window, and the part
   * from hi on is as it was in `c`, which `before` matched from lo on.
   */
  lemma Splice(c: seq<int>, before: seq<int>, after: seq<int>, lo: nat, hi: nat)
    requires lo <= hi <= |before| == |after| == |c|
    requires before[lo..] == c[lo..]
    requires forall q :: 0 <= q < |after| && !(lo <= q < hi) ==> after[q] == before[q]
    ensures after[..hi] == before[..lo] + after[lo..hi]
    ensures after[hi..] == c[hi..]
  {
    assert after[..lo] == before[..lo];
    assert after[..hi] == after[..lo] + after[lo..hi];
    forall q | hi <= q < |after|
      ensures after[q] == c[q]
    {
      assert before[q] == before[lo..][q - lo];
    }
  }

  lemma MulSucc(x: nat, y: nat)
    ensures (x + 1) * y == x * y + y
  {
  }

  lemma MulAdd(x: nat, y: nat, z: nat)
    ensures (x + y) * z == x * z + y * z
  {
  }

  lemma MulAssoc(x: nat, y: nat, z: nat)
    ensures x * (y * z) == (x * y) * z
  {
  }

  lemma MulMono(x: nat, y: nat, z: nat)
    requires x <= y
    ensures x * z <= y * z
  {
  }

  /** The kernel's unit example: [[1,2],[3,4]] times [[5,6],[7,8]] is [[19,22],[43,50]]. */
  lemma KernelExample()
    ensures Product([1, 2, 3, 4], [5, 6, 7, 8], 2, 2, 2) == [19, 22, 43, 50]
  {
    var a, b := [1, 2, 3, 4], [5, 6, 7, 8];
    assert a[..2] == [1, 2] && a[2..] == [3, 4];
    assert Dot([1, 2], b, 2, 0) == 19 by { assert [1, 2][..1] == [1]; }
    assert Dot([1, 2], b, 2, 1) == 22 by { assert [1, 2][..1] == [1]; }
    assert Dot([3, 4], b, 2, 0) == 43 by { assert [3, 4][..1] == [3]; }
    assert Dot([3, 4], b, 2, 1) == 50 by { assert [3, 4][..1] == [3]; }
    assert Product(a[..2], b, 1, 2, 2) == [19, 22] by {
      assert a[..2][..0] == [];
      assert a[..2][0..] == [1, 2];
    }
  }
}
