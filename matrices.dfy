/** Dense matrices as rectangular sequences of rows of reals, and the matrix
    operations stated as pure functions. These definitions give the meaning
    of the in-place operations of MutableMatrix, and stand in for the
    representation-agnostic helpers (row append, column split) of the
    abstract Matrix base class. */
module Matrices {

  /** A matrix value: a sequence of rows, each a sequence of cells. */
  type Grid = seq<seq<real>>

  /** The failure conditions the matrix operations raise. */
  datatype MatrixError = ShapeMismatch | IndexOutOfBounds | DivisionByZero | UnevenSplit

  datatype Result<T> = Ok(value: T) | Err(error: MatrixError)

  /** g has r rows of exactly c cells each. */
  predicate Rect(g: Grid, r: nat, c: nat) {
    |g| == r && forall i :: 0 <= i < r ==> |g[i]| == c
  }

  /** a and b have the same number of rows, and equal rows have equal length. */
  predicate SameShape(a: Grid, b: Grid) {
    |a| == |b| && forall i :: 0 <= i < |a| ==> |a[i]| == |b[i]|
  }

  // ---------------------------------------------------------------------------
  // Elementwise operations

  /** Cellwise a + b. */
  function Sum(a: Grid, b: Grid): (r: Grid)
    requires SameShape(a, b)
    ensures SameShape(r, a)
  {
    seq(|a|, i requires 0 <= i < |a| =>
      seq(|a[i]|, j requires 0 <= j < |a[i]| => a[i][j] + b[i][j]))
  }

  /** Cellwise a - b. */
  function Difference(a: Grid, b: Grid): (r: Grid)
    requires SameShape(a, b)
    ensures SameShape(r, a)
  {
    seq(|a|, i requires 0 <= i < |a| =>
      seq(|a[i]|, j requires 0 <= j < |a[i]| => a[i][j] - b[i][j]))
  }

  /** Every cell of a multiplied by the scalar s. */
  function Scaled(a: Grid, s: real): (r: Grid)
    ensures SameShape(r, a)
  {
    seq(|a|, i requires 0 <= i < |a| =>
      seq(|a[i]|, j requires 0 <= j < |a[i]| => a[i][j] * s))
  }

  /** Every cell of a divided by the nonzero scalar s. */
  function Quotient(a: Grid, s: real): (r: Grid)
    requires s != 0.0
    ensures SameShape(r, a)
  {
    seq(|a|, i requires 0 <= i < |a| =>
      seq(|a[i]|, j requires 0 <= j < |a[i]| => a[i][j] / s))
  }

  /** f applied to every cell of a. */
  function Mapped(a: Grid, f: real -> real): (r: Grid)
    ensures SameShape(r, a)
  {
    seq(|a|, i requires 0 <= i < |a| =>
      seq(|a[i]|, j requires 0 <= j < |a[i]| => f(a[i][j])))
  }

  /** a with every cell replaced by v. */
  function Filled(a: Grid, v: real): (r: Grid)
    ensures SameShape(r, a)
  {
    seq(|a|, i requires 0 <= i < |a| => seq(|a[i]|, _ => v))
  }

  /** The r-by-c matrix whose every cell is v. */
  function Constant(r: nat, c: nat, v: real): (g: Grid)
    ensures Rect(g, r, c)
  {
    seq(r, _ => seq(c, _ => v))
  }

  // ---------------------------------------------------------------------------
  // Transpose and matrix product

  /** The transpose of a matrix with c columns: cell (p, q) is g's cell (q, p). */
  function Transposed(g: Grid, c: nat): (t: Grid)
    requires Rect(g, |g|, c)
    ensures Rect(t, c, |g|)
  {
    seq(c, p requires 0 <= p < c => seq(|g|, q requires 0 <= q < |g| => g[q][p]))
  }

  /** The first n terms of the inner product of row i of a with column j of b,
      added up from k = 0 upwards: a[i][0] * b[0][j] + ... + a[i][n-1] * b[n-1][j]. */
  function DotSum(a: Grid, b: Grid, i: nat, j: nat, n: nat): real
    requires i < |a| && n <= |a[i]| && n <= |b|
    requires forall t :: 0 <= t < |b| ==> j < |b[t]|
  {
    if n == 0 then 0.0 else DotSum(a, b, i, j, n - 1) + a[i][n - 1] * b[n - 1][j]
  }

  /** The matrix product of a (|a| rows, |b| columns) and b (|b| rows, k columns). */
  function Product(a: Grid, b: Grid, k: nat): (p: Grid)
    requires Rect(a, |a|, |b|) && Rect(b, |b|, k)
    ensures Rect(p, |a|, k)
  {
    seq(|a|, i requires 0 <= i < |a| =>
      seq(k, j requires 0 <= j < k => DotSum(a, b, i, j, |b|)))
  }

  /** The n-by-n identity matrix. */
  function Identity(n: nat): (g: Grid)
    ensures Rect(g, n, n)
  {
    seq(n, i => seq(n, j => if i == j then 1.0 else 0.0))
  }

  // ---------------------------------------------------------------------------
  // Shape-changing helpers

  /** The rows of a followed by the rows of b; the column counts must agree. */
  function AppendRows(a: Grid, aCols: nat, b: Grid, bCols: nat): (r: Result<Grid>)
    requires Rect(a, |a|, aCols) && Rect(b, |b|, bCols)
    ensures r.Err? <==> aCols != bCols
    ensures r.Err? ==> r.error == ShapeMismatch
    ensures r.Ok? ==> Rect(r.value, |a| + |b|, aCols)
  {
    if aCols != bCols then Err(ShapeMismatch) else Ok(a + b)
  }

  /** Columns lo up to (not including) hi of every row of g. */
  function ColumnSlice(g: Grid, c: nat, lo: nat, hi: nat): (s: Grid)
    requires Rect(g, |g|, c) && lo <= hi <= c
    ensures Rect(s, |g|, hi - lo)
  {
    seq(|g|, i requires 0 <= i < |g| => g[i][lo..hi])
  }

  /** The first k blocks of width w of g, left to right. */
  function Blocks(g: Grid, c: nat, w: nat, k: nat): (bs: seq<Grid>)
    requires Rect(g, |g|, c) && k * w <= c
    ensures |bs| == k
    ensures forall p :: 0 <= p < k ==> Rect(bs[p], |g|, w)
  {
    seq(k, p requires 0 <= p < k => BlockBound(p, k, w); ColumnSlice(g, c, p * w, p * w + w))
  }

  /** Splits a matrix with c columns into `pieces` blocks of equal width, left
      to right. Fails unless `pieces` is positive and divides c. */
  function SplitColumns(g: Grid, c: nat, pieces: int): (r: Result<seq<Grid>>)
    requires Rect(g, |g|, c)
    ensures r.Err? <==> pieces <= 0 || c % pieces != 0
    ensures r.Err? ==> r.error == UnevenSplit
    ensures r.Ok? ==> |r.value| == pieces
    ensures r.Ok? ==> forall p :: 0 <= p < pieces ==> Rect(r.value[p], |g|, c / pieces)
  {
    if pieces <= 0 || c % pieces != 0 then Err(UnevenSplit)
    else Ok(EqualBlocks(g, c, pieces))
  }

  /** The `pieces` blocks of equal width that make up g, left to right. */
  function EqualBlocks(g: Grid, c: nat, pieces: nat): (bs: seq<Grid>)
    requires Rect(g, |g|, c) && pieces > 0 && c % pieces == 0
    ensures |bs| == pieces
    ensures forall p :: 0 <= p < pieces ==> Rect(bs[p], |g|, c / pieces)
  {
    DivisionExact(c, pieces);
    Blocks(g, c, c / pieces, pieces)
  }

  /** Rows of a followed, cell for cell, by the same rows of b. */
  function Beside(a: Grid, b: Grid): (r: Grid)
    requires |a| == |b|
    ensures |r| == |a|
    ensures forall i :: 0 <= i < |a| ==> |r[i]| == |a[i]| + |b[i]|
  {
    seq(|a|, i requires 0 <= i < |a| => a[i] + b[i])
  }

  /** The blocks, each with r rows, placed side by side from left to right. */
  function JoinColumns(bs: seq<Grid>, r: nat): (g: Grid)
    requires forall p :: 0 <= p < |bs| ==> |bs[p]| == r
    ensures |g| == r
  {
    if bs == [] then seq(r, _ => [])
    else Beside(JoinColumns(bs[..|bs| - 1], r), bs[|bs| - 1])
  }

  // ---------------------------------------------------------------------------
  // Arithmetic facts used by the column split

  lemma BlockBound(p: nat, k: nat, w: nat)
    requires p < k
    ensures p * w + w <= k * w
  {
    var d: nat := k - p - 1;
    assert d * w >= 0;
    assert k * w == d * w + p * w + w;
  }

  lemma DivisionExact(c: nat, pieces: int)
    requires pieces > 0 && c % pieces == 0
    ensures pieces * (c / pieces) == c
    ensures 0 <= c / pieces
    ensures 0 < c ==> 0 < c / pieces
  {
  }

  // ---------------------------------------------------------------------------
  // Properties of the operations

  /** Adding b and then subtracting b restores a. */
  lemma SubtractUndoesAdd(a: Grid, b: Grid)
    requires SameShape(a, b)
    ensures Difference(Sum(a, b), b) == a
  {
    var d := Difference(Sum(a, b), b);
    forall i | 0 <= i < |a| ensures d[i] == a[i] {
      assert |d[i]| == |a[i]|;
    }
  }

  /** Subtracting b and then adding b restores a. */
  lemma AddUndoesSubtract(a: Grid, b: Grid)
    requires SameShape(a, b)
    ensures Sum(Difference(a, b), b) == a
  {
    var d := Sum(Difference(a, b), b);
    forall i | 0 <= i < |a| ensures d[i] == a[i] {
      assert |d[i]| == |a[i]|;
    }
  }

  /** Multiplying by a nonzero s and then dividing by s restores a. */
  lemma DivideUndoesMultiply(a: Grid, s: real)
    requires s != 0.0
    ensures Quotient(Scaled(a, s), s) == a
  {
    var d := Quotient(Scaled(a, s), s);
    forall i | 0 <= i < |a| ensures d[i] == a[i] {
      forall j | 0 <= j < |a[i]| ensures d[i][j] == a[i][j] {
        assert d[i][j] == (a[i][j] * s) / s;
      }
    }
  }

  /** Scaling is the elementwise application of "multiply by s". */
  lemma ScaledIsMapped(a: Grid, s: real)
    ensures Scaled(a, s) == Mapped(a, x => x * s)
  {
    var l, r := Scaled(a, s), Mapped(a, x => x * s);
    forall i | 0 <= i < |a| ensures l[i] == r[i] {
      assert |l[i]| == |r[i]|;
    }
  }

  /** Applying f and then h is applying their composition once. */
  lemma MappedFusion(a: Grid, f: real -> real, h: real -> real)
    ensures Mapped(Mapped(a, f), h) == Mapped(a, x => h(f(x)))
  {
    var l, r := Mapped(Mapped(a, f), h), Mapped(a, x => h(f(x)));
    forall i | 0 <= i < |a| ensures l[i] == r[i] {
      assert |l[i]| == |r[i]|;
    }
  }

  /** Filling a filled matrix with the same value changes nothing. */
  lemma FillIdempotent(a: Grid, v: real)
    ensures Filled(Filled(a, v), v) == Filled(a, v)
  {
    var l, r := Filled(Filled(a, v), v), Filled(a, v);
    forall i | 0 <= i < |a| ensures l[i] == r[i] {
      assert |l[i]| == |r[i]|;
    }
  }

  /** Filling a rectangular matrix gives the constant matrix of its shape:
      every cell afterwards holds v, whatever it held before. */
  lemma FilledIsConstant(a: Grid, r: nat, c: nat, v: real)
    requires Rect(a, r, c)
    ensures Filled(a, v) == Constant(r, c, v)
  {
    var l, k := Filled(a, v), Constant(r, c, v);
    forall i | 0 <= i < r ensures l[i] == k[i] {
      assert |l[i]| == |k[i]|;
    }
  }

  /** Transposing twice restores the matrix. */
  lemma TransposeTwice(g: Grid, c: nat)
    requires Rect(g, |g|, c)
    ensures Transposed(Transposed(g, c), |g|) == g
  {
    var t := Transposed(Transposed(g, c), |g|);
    forall q | 0 <= q < |g| ensures t[q] == g[q] {
      assert |t[q]| == |g[q]|;
    }
  }

  lemma {:induction false} DotSumIdentityLeft(n: nat, b: Grid, k: nat, i: nat, j: nat, t: nat)
    requires Rect(b, n, k) && i < n && j < k && t <= n
    ensures DotSum(Identity(n), b, i, j, t) == if i < t then b[i][j] else 0.0
  {
    if t > 0 {
      DotSumIdentityLeft(n, b, k, i, j, t - 1);
    }
  }

  lemma {:induction false} DotSumIdentityRight(a: Grid, n: nat, i: nat, j: nat, t: nat)
    requires Rect(a, |a|, n) && i < |a| && j < n && t <= n
    ensures DotSum(a, Identity(n), i, j, t) == if j < t then a[i][j] else 0.0
  {
    if t > 0 {
      DotSumIdentityRight(a, n, i, j, t - 1);
    }
  }

  /** The identity is a left unit of the matrix product. */
  lemma ProductIdentityLeft(b: Grid, k: nat)
    requires Rect(b, |b|, k)
    ensures Product(Identity(|b|), b, k) == b
  {
    var p := Product(Identity(|b|), b, k);
    forall i | 0 <= i < |b| ensures p[i] == b[i] {
      forall j | 0 <= j < k ensures p[i][j] == b[i][j] {
        DotSumIdentityLeft(|b|, b, k, i, j, |b|);
      }
    }
  }

  /** The identity is a right unit of the matrix product. */
  lemma ProductIdentityRight(a: Grid, n: nat)
    requires Rect(a, |a|, n)
    ensures Product(a, Identity(n), n) == a
  {
    var p := Product(a, Identity(n), n);
    forall i | 0 <= i < |a| ensures p[i] == a[i] {
      forall j | 0 <= j < n ensures p[i][j] == a[i][j] {
        DotSumIdentityRight(a, n, i, j, n);
      }
    }
  }

  /** The product of [[1,2],[3,4]] and [[5,6],[7,8]] is [[19,22],[43,50]], and
      their sum is [[6,8],[10,12]]. */
  lemma TwoByTwoExample()
    ensures Product([[1.0, 2.0], [3.0, 4.0]], [[5.0, 6.0], [7.0, 8.0]], 2)
         == [[19.0, 22.0], [43.0, 50.0]]
    ensures Sum([[1.0, 2.0], [3.0, 4.0]], [[5.0, 6.0], [7.0, 8.0]])
         == [[6.0, 8.0], [10.0, 12.0]]
  {
    var a, b := [[1.0, 2.0], [3.0, 4.0]], [[5.0, 6.0], [7.0, 8.0]];
    var p := Product(a, b, 2);
    assert p[0] == [19.0, 22.0] by {
      assert DotSum(a, b, 0, 0, 2) == 19.0;
      assert DotSum(a, b, 0, 1, 2) == 22.0;
    }
    assert p[1] == [43.0, 50.0] by {
      assert DotSum(a, b, 1, 0, 2) == 43.0;
      assert DotSum(a, b, 1, 1, 2) == 50.0;
    }
    var s := Sum(a, b);
    assert s[0] == [6.0, 8.0];
    assert s[1] == [10.0, 12.0];
  }

  /** The rows of an appended matrix split back into its two operands. */
  lemma AppendRowsParts(a: Grid, b: Grid, c: nat)
    requires Rect(a, |a|, c) && Rect(b, |b|, c)
    ensures AppendRows(a, c, b, c).Ok?
    ensures AppendRows(a, c, b, c).value[..|a|] == a
    ensures AppendRows(a, c, b, c).value[|a|..] == b
  {
    var g := AppendRows(a, c, b, c).value;
    assert g == a + b;
  }

  lemma {:induction false} JoinBlocksPrefix(g: Grid, c: nat, w: nat, k: nat)
    requires Rect(g, |g|, c) && k * w <= c
    ensures JoinColumns(Blocks(g, c, w, k), |g|) == ColumnSlice(g, c, 0, k * w)
  {
    var bs := Blocks(g, c, w, k);
    var joined := JoinColumns(bs, |g|);
    if k == 0 {
      var e := ColumnSlice(g, c, 0, 0);
      forall i | 0 <= i < |g| ensures joined[i] == e[i] { }
    } else {
      BlockBound(k - 1, k, w);
      assert bs[..k - 1] == Blocks(g, c, w, k - 1);
      JoinBlocksPrefix(g, c, w, k - 1);
      var front := ColumnSlice(g, c, 0, (k - 1) * w);
      var last := ColumnSlice(g, c, (k - 1) * w, (k - 1) * w + w);
      assert bs[k - 1] == last;
      assert joined == Beside(front, last);
      var whole := ColumnSlice(g, c, 0, k * w);
      forall i | 0 <= i < |g| ensures joined[i] == whole[i] {
        assert g[i][0..(k - 1) * w] + g[i][(k - 1) * w..k * w] == g[i][0..k * w];
      }
    }
  }

  lemma JoinAllBlocks(g: Grid, c: nat, w: nat, k: nat)
    requires Rect(g, |g|, c) && k * w == c
    ensures JoinColumns(Blocks(g, c, w, k), |g|) == g
  {
    JoinBlocksPrefix(g, c, w, k);
    var whole := ColumnSlice(g, c, 0, k * w);
    forall i | 0 <= i < |g| ensures whole[i] == g[i] {
      assert g[i][0..c] == g[i];
    }
  }

  /** Placing the pieces of a column split side by side, left to right,
      rebuilds the original matrix exactly. */
  lemma SplitThenJoin(g: Grid, c: nat, pieces: int)
    requires Rect(g, |g|, c) && SplitColumns(g, c, pieces).Ok?
    ensures JoinColumns(SplitColumns(g, c, pieces).value, |g|) == g
  {
    DivisionExact(c, pieces);
    JoinAllBlocks(g, c, c / pieces, pieces);
    assert EqualBlocks(g, c, pieces) == Blocks(g, c, c / pieces, pieces);
  }

  /** Splitting the 1-by-4 matrix [[1,2,3,4]] in two gives [[1,2]] and [[3,4]]. */
  lemma SplitExample()
    ensures SplitColumns([[1.0, 2.0, 3.0, 4.0]], 4, 2) == Ok([[[1.0, 2.0]], [[3.0, 4.0]]])
  {
    var g := [[1.0, 2.0, 3.0, 4.0]];
    assert 4 / 2 == 2;
    var bs := Blocks(g, 4, 2, 2);
    assert SplitColumns(g, 4, 2) == Ok(bs);
    assert bs[0] == ColumnSlice(g, 4, 0, 2);
    assert bs[1] == ColumnSlice(g, 4, 2, 4);
    assert g[0][0..2] == [1.0, 2.0];
    assert g[0][2..4] == [3.0, 4.0];
    assert bs[0] == [[1.0, 2.0]];
    assert bs[1] == [[3.0, 4.0]];
    assert bs == [bs[0], bs[1]];
  }
}
