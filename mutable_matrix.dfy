/** The mutable variant of the matrix abstraction: a dense rows-by-cols array
    of reals that every arithmetic and structural operation updates in place,
    returning the receiver itself so that calls can be chained. Only row
    append and column split, which change the shape, make new matrices. */
module MutableMatrices {
  import opened Matrices

  /** The cells of a as a matrix value, row by row. */
  ghost function Elements(a: array2<real>): (g: Grid)
    reads a
    ensures Rect(g, a.Length0, a.Length1)
  {
    seq(a.Length0, i requires 0 <= i < a.Length0 reads a =>
      seq(a.Length1, j requires 0 <= j < a.Length1 reads a => a[i, j]))
  }

  /** An array whose every cell agrees with g holds exactly g. */
  lemma ElementsOf(a: array2<real>, g: Grid)
    requires Rect(g, a.Length0, a.Length1)
    requires forall p, q :: 0 <= p < a.Length0 && 0 <= q < a.Length1 ==> a[p, q] == g[p][q]
    ensures Elements(a) == g
  {
    var e := Elements(a);
    forall p | 0 <= p < a.Length0 ensures e[p] == g[p] {
      assert |e[p]| == |g[p]|;
    }
  }

  /** A row-major sweep over a has reached cell (i, j): every cell before it
      holds its value in target, every cell from it on its value in orig. */
  ghost predicate Progress(a: array2<real>, orig: Grid, target: Grid, i: int, j: int)
    reads a
    requires Rect(orig, a.Length0, a.Length1) && Rect(target, a.Length0, a.Length1)
  {
    forall p, q :: 0 <= p < a.Length0 && 0 <= q < a.Length1 ==>
      a[p, q] == if p < i || (p == i && q < j) then target[p][q] else orig[p][q]
  }

  /** A sweep that has passed the last row has turned a into target. */
  lemma ProgressDone(a: array2<real>, orig: Grid, target: Grid)
    requires Rect(orig, a.Length0, a.Length1) && Rect(target, a.Length0, a.Length1)
    requires Progress(a, orig, target, a.Length0, 0)
    ensures Elements(a) == target
  {
    ElementsOf(a, target);
  }

  /** Overwrites dst, cell by cell, with the cells of src; both must have the
      same shape. This is the base class's copy helper. */
  method Copy(src: array2<real>, dst: array2<real>)
    requires src != dst && src.Length0 == dst.Length0 && src.Length1 == dst.Length1
    modifies dst
    ensures Elements(dst) == Elements(src)
    ensures unchanged(src)
  {
    ghost var orig, target := Elements(dst), Elements(src);
    var i := 0;
    while i < src.Length0
      invariant 0 <= i <= src.Length0
      invariant Progress(dst, orig, target, i, 0)
    {
      var j := 0;
      while j < src.Length1
        invariant 0 <= j <= src.Length1
        invariant Progress(dst, orig, target, i, j)
      {
        dst[i, j] := src[i, j];
        j := j + 1;
      }
      i := i + 1;
    }
    ProgressDone(dst, orig, target);
  }

  /** A fresh array holding the rows of a followed by the rows of b, or a shape
      mismatch when their column counts differ. This is the base class's
      row-append helper. */
  method AppendRowArrays(a: array2<real>, b: array2<real>) returns (r: Result<array2<real>>)
    ensures r.Err? <==> a.Length1 != b.Length1
    ensures r.Err? ==> r.error == ShapeMismatch
    ensures r.Ok? ==> fresh(r.value)
    ensures r.Ok? ==> r.value.Length0 == a.Length0 + b.Length0 && r.value.Length1 == a.Length1
    ensures r.Ok? ==> Elements(r.value) == AppendRows(Elements(a), a.Length1, Elements(b), b.Length1).value
  {
    if a.Length1 != b.Length1 {
      return Err(ShapeMismatch);
    }
    var n := a.Length0;
    var g := new real[n + b.Length0, a.Length1]((i, j) reads a, b
      requires 0 <= i < n + b.Length0 && 0 <= j < a.Length1 =>
      if i < n then a[i, j] else b[i - n, j]);
    ElementsOf(g, Elements(a) + Elements(b));
    return Ok(g);
  }

  /** A fresh array holding columns lo up to (not including) hi of a. */
  method ColumnBlockArray(a: array2<real>, lo: nat, hi: nat) returns (block: array2<real>)
    requires lo <= hi <= a.Length1
    ensures fresh(block) && block.Length0 == a.Length0 && block.Length1 == hi - lo
    ensures Elements(block) == ColumnSlice(Elements(a), a.Length1, lo, hi)
  {
    block := new real[a.Length0, hi - lo]((i, j) reads a
      requires 0 <= i < a.Length0 && 0 <= j < hi - lo => a[i, lo + j]);
    ElementsOf(block, ColumnSlice(Elements(a), a.Length1, lo, hi));
  }

  /** Fresh, pairwise distinct arrays holding the blocks of an even column
      split of a, left to right, or an uneven-split failure. This is the base
      class's column-split helper. */
  method SplitColumnArrays(a: array2<real>, pieces: int) returns (r: Result<seq<array2<real>>>)
    ensures r.Err? <==> SplitColumns(Elements(a), a.Length1, pieces).Err?
    ensures r.Err? ==> r.error == UnevenSplit
    ensures r.Ok? ==> |r.value| == |SplitColumns(Elements(a), a.Length1, pieces).value|
    ensures r.Ok? ==> forall p :: 0 <= p < |r.value| ==>
      fresh(r.value[p]) && Elements(r.value[p]) == SplitColumns(Elements(a), a.Length1, pieces).value[p]
    ensures r.Ok? ==> forall p :: 0 <= p < |r.value| ==>
      r.value[p].Length0 == a.Length0 && r.value[p].Length1 == a.Length1 / pieces
    ensures r.Ok? ==> forall p, q :: 0 <= p < q < |r.value| ==> r.value[p] != r.value[q]
  {
    ghost var g := Elements(a);
    var c := a.Length1;
    if pieces <= 0 || c % pieces != 0 {
      return Err(UnevenSplit);
    }
    DivisionExact(c, pieces);
    var w := c / pieces;
    ghost var blocks := SplitColumns(g, c, pieces).value;
    assert blocks == Blocks(g, c, w, pieces);
    var acc: seq<array2<real>> := [];
    while |acc| < pieces
      invariant |acc| <= pieces
      invariant forall p :: 0 <= p < |acc| ==> fresh(acc[p]) && Elements(acc[p]) == blocks[p]
      invariant forall p :: 0 <= p < |acc| ==> acc[p].Length0 == a.Length0 && acc[p].Length1 == w
      invariant forall p, q :: 0 <= p < q < |acc| ==> acc[p] != acc[q]
    {
      var k := |acc|;
      BlockBound(k, pieces, w);
      var block := ColumnBlockArray(a, k * w, k * w + w);
      assert Elements(block) == blocks[k];
      acc := acc + [block];
    }
    return Ok(acc);
  }

  /** The innermost loop of the matrix product: the inner product of row i
      of a with column j of b, accumulated from k = 0 upwards. */
  method DotCell(a: array2<real>, b: array2<real>, i: nat, j: nat) returns (sum: real)
    requires a.Length1 == b.Length0 && i < a.Length0 && j < b.Length1
    ensures sum == DotSum(Elements(a), Elements(b), i, j, a.Length1)
  {
    sum := 0.0;
    var k := 0;
    while k < a.Length1
      invariant 0 <= k <= a.Length1
      invariant sum == DotSum(Elements(a), Elements(b), i, j, k)
    {
      sum := sum + a[i, k] * b[k, j];
      k := k + 1;
    }
  }

  /** The matrix product of a and b computed into a fresh zero-filled
      buffer, cell by cell in row-major order. */
  method ProductArray(a: array2<real>, b: array2<real>) returns (product: array2<real>)
    requires a.Length1 == b.Length0
    ensures fresh(product) && product.Length0 == a.Length0 && product.Length1 == b.Length1
    ensures Elements(product) == Product(Elements(a), Elements(b), b.Length1)
  {
    ghost var target := Product(Elements(a), Elements(b), b.Length1);
    ghost var zeros := Constant(a.Length0, b.Length1, 0.0);
    product := new real[a.Length0, b.Length1]((_, _) => 0.0);
    var i := 0;
    while i < a.Length0
      invariant 0 <= i <= a.Length0
      invariant Progress(product, zeros, target, i, 0)
      modifies product
    {
      var j := 0;
      while j < b.Length1
        invariant 0 <= j <= b.Length1
        invariant Progress(product, zeros, target, i, j)
        modifies product
      {
        var sum := DotCell(a, b, i, j);
        product[i, j] := product[i, j] + sum;
        j := j + 1;
      }
      i := i + 1;
    }
    ProgressDone(product, zeros, target);
  }

  class MutableMatrix {
    const rows: nat
    const cols: nat
    /** The backing array, updated in place; never reallocated. */
    const m: array2<real>

    /** Both dimensions are positive and the backing array has exactly that shape. */
    predicate Valid() {
      0 < rows && 0 < cols && m.Length0 == rows && m.Length1 == cols
    }

    /** The current contents of the matrix. */
    ghost function Cells(): (g: Grid)
      reads m
      requires Valid()
      ensures Rect(g, rows, cols)
    {
      Elements(m)
    }

    /** A rows-by-cols matrix of zeros. */
    constructor (r: nat, c: nat)
      requires 0 < r && 0 < c
      ensures Valid() && fresh(m) && rows == r && cols == c
      ensures Cells() == Constant(r, c, 0.0)
    {
      rows, cols := r, c;
      m := new real[r, c]((_, _) => 0.0);
      new;
      ElementsOf(m, Constant(r, c, 0.0));
    }

    /** A matrix over the raw array a; its shape is the shape of a. */
    constructor Wrap(a: array2<real>)
      requires 0 < a.Length0 && 0 < a.Length1
      ensures Valid() && m == a && rows == a.Length0 && cols == a.Length1
    {
      rows, cols, m := a.Length0, a.Length1, a;
    }

    /** A copy of other in fresh storage. */
    constructor FromMatrix(other: MutableMatrix)
      requires other.Valid()
      ensures Valid() && fresh(m) && rows == other.rows && cols == other.cols
      ensures Cells() == other.Cells()
    {
      rows, cols := other.rows, other.cols;
      m := new real[other.rows, other.cols]((i, j) reads other.m
        requires 0 <= i < other.rows && 0 <= j < other.cols => other.m[i, j]);
      new;
      ElementsOf(m, other.Cells());
    }

    /** The value at row i, column j. This is the base class's accessor. */
    function Get(i: int, j: int): (v: real)
      reads m
      requires Valid() && 0 <= i < rows && 0 <= j < cols
      ensures v == Cells()[i][j]
    {
      m[i, j]
    }

    /** Writes v at row i, column j and returns the receiver; an index outside
        the shape fails and changes nothing. */
    method Set(i: int, j: int, v: real) returns (r: Result<MutableMatrix>)
      requires Valid()
      modifies m
      ensures r.Ok? <==> 0 <= i < rows && 0 <= j < cols
      ensures r.Ok? ==> r.value == this
      ensures r.Ok? ==> Cells() == old(Cells())[i := old(Cells())[i][j := v]]
      ensures r.Err? ==> r.error == IndexOutOfBounds && Cells() == old(Cells())
    {
      if !(0 <= i < rows && 0 <= j < cols) {
        return Err(IndexOutOfBounds);
      }
      ghost var before := Cells();
      m[i, j] := v;
      ElementsOf(m, before[i := before[i][j := v]]);
      return Ok(this);
    }

    /** The cells of row i, left to right, or an index failure. */
    function Row(i: int): (r: Result<seq<real>>)
      reads m
      requires Valid()
      ensures r.Ok? <==> 0 <= i < rows
      ensures r.Ok? ==> r.value == Cells()[i]
      ensures r.Err? ==> r.error == IndexOutOfBounds
    {
      if 0 <= i < rows then Ok(seq(cols, j requires 0 <= j < cols reads m => m[i, j]))
      else Err(IndexOutOfBounds)
    }

    /** A new matrix holding this matrix's rows followed by m2's; the receiver
        and m2 are left as they are. Fails when the column counts differ. */
    method AppendRows(m2: MutableMatrix) returns (r: Result<MutableMatrix>)
      requires Valid() && m2.Valid()
      ensures r.Err? <==> cols != m2.cols
      ensures r.Err? ==> r.error == ShapeMismatch
      ensures r.Ok? ==> fresh(r.value) && fresh(r.value.m) && r.value.Valid()
      ensures r.Ok? ==> r.value.Cells() == Matrices.AppendRows(Cells(), cols, m2.Cells(), m2.cols).value
    {
      var joined := AppendRowArrays(m, m2.m);
      if joined.Err? {
        return Err(joined.error);
      }
      var result := new MutableMatrix.Wrap(joined.value);
      return Ok(result);
    }

    /** One new matrix per block of an even split of the columns into
        `pieces`, in left-to-right order, each over its own fresh storage. */
    method SplitColumns(pieces: int) returns (r: Result<seq<MutableMatrix>>)
      requires Valid()
      ensures r.Err? <==> Matrices.SplitColumns(Cells(), cols, pieces).Err?
      ensures r.Err? ==> r.error == UnevenSplit
      ensures r.Ok? ==> |r.value| == |Matrices.SplitColumns(Cells(), cols, pieces).value|
      ensures r.Ok? ==> forall p :: 0 <= p < |r.value| ==>
        fresh(r.value[p]) && fresh(r.value[p].m) && r.value[p].Valid() &&
        r.value[p].Cells() == Matrices.SplitColumns(Cells(), cols, pieces).value[p]
      ensures r.Ok? ==> forall p, q :: 0 <= p < q < |r.value| ==> r.value[p].m != r.value[q].m
    {
      var split := SplitColumnArrays(m, pieces);
      if split.Err? {
        return Err(split.error);
      }
      ghost var blocks := Matrices.SplitColumns(Cells(), cols, pieces).value;
      DivisionExact(cols, pieces);
      var arrays := split.value;
      var matrices: seq<MutableMatrix> := [];
      while |matrices| < |arrays|
        invariant |matrices| <= |arrays|
        invariant forall p :: 0 <= p < |matrices| ==> fresh(matrices[p]) && matrices[p].m == arrays[p]
        invariant forall p :: 0 <= p < |matrices| ==> matrices[p].Valid()
        invariant forall p :: 0 <= p < |arrays| ==> Elements(arrays[p]) == blocks[p]
      {
        var piece := new MutableMatrix.Wrap(arrays[|matrices|]);
        matrices := matrices + [piece];
      }
      return Ok(matrices);
    }

    /** Replaces the contents by the matrix product of the receiver and m2 and
        returns the receiver; the product is computed from the values before
        the call even when m2 is the receiver. Fails and changes nothing when
        the receiver's column count differs from m2's row count. */
    method Dot(m2: MutableMatrix) returns (r: Result<MutableMatrix>)
      requires Valid() && m2.Valid() && (cols == m2.rows ==> m2.cols == cols)
      modifies m
      ensures r.Err? <==> cols != m2.rows
      ensures r.Err? ==> r.error == ShapeMismatch && Cells() == old(Cells())
      ensures r.Ok? ==> r.value == this
      ensures r.Ok? ==> Cells() == Product(old(Cells()), old(m2.Cells()), m2.cols)
      ensures m2.m != m ==> unchanged(m2.m)
    {
      if cols != m2.rows {
        return Err(ShapeMismatch);
      }
      var product := ProductArray(m, m2.m);
      Copy(product, m);
      return Ok(this);
    }
    /** Adds m2 cell by cell into the receiver and returns the receiver. */
    method Add(m2: MutableMatrix) returns (r: MutableMatrix)
      requires Valid() && m2.Valid() && m2.rows == rows && m2.cols == cols
      modifies m
      ensures r == this
      ensures Cells() == Sum(old(Cells()), old(m2.Cells()))
      ensures m2.m != m ==> unchanged(m2.m)
    {
      ghost var orig, other := Cells(), m2.Cells();
      ghost var target := Sum(orig, other);
      var i := 0;
      while i < rows
        invariant 0 <= i <= rows
        invariant Progress(m, orig, target, i, 0)
        invariant m2.m != m ==> Elements(m2.m) == other
      {
        var j := 0;
        while j < cols
          invariant 0 <= j <= cols
          invariant Progress(m, orig, target, i, j)
          invariant m2.m != m ==> Elements(m2.m) == other
        {
          m[i, j] := m[i, j] + m2.Get(i, j);
          j := j + 1;
        }
        i := i + 1;
      }
      ProgressDone(m, orig, target);
      return this;
    }

    /** Subtracts m2 cell by cell from the receiver and returns the receiver. */
    method Subtract(m2: MutableMatrix) returns (r: MutableMatrix)
      requires Valid() && m2.Valid() && m2.rows == rows && m2.cols == cols
      modifies m
      ensures r == this
      ensures Cells() == Difference(old(Cells()), old(m2.Cells()))
      ensures m2.m != m ==> unchanged(m2.m)
    {
      ghost var orig, other := Cells(), m2.Cells();
      ghost var target := Difference(orig, other);
      var i := 0;
      while i < rows
        invariant 0 <= i <= rows
        invariant Progress(m, orig, target, i, 0)
        invariant m2.m != m ==> Elements(m2.m) == other
      {
        var j := 0;
        while j < cols
          invariant 0 <= j <= cols
          invariant Progress(m, orig, target, i, j)
          invariant m2.m != m ==> Elements(m2.m) == other
        {
          m[i, j] := m[i, j] - m2.Get(i, j);
          j := j + 1;
        }
        i := i + 1;
      }
      ProgressDone(m, orig, target);
      return this;
    }

    /** Multiplies every cell by s and returns the receiver. */
    method Multiply(s: real) returns (r: MutableMatrix)
      requires Valid()
      modifies m
      ensures r == this
      ensures Cells() == Scaled(old(Cells()), s)
    {
      ghost var orig := Cells();
      ghost var target := Scaled(orig, s);
      var i := 0;
      while i < rows
        invariant 0 <= i <= rows
        invariant Progress(m, orig, target, i, 0)
      {
        var j := 0;
        while j < cols
          invariant 0 <= j <= cols
          invariant Progress(m, orig, target, i, j)
        {
          m[i, j] := m[i, j] * s;
          j := j + 1;
        }
        i := i + 1;
      }
      ProgressDone(m, orig, target);
      return this;
    }

    /** Divides every cell by s and returns the receiver; a zero divisor fails
        before any cell is touched. */
    method Divide(s: real) returns (r: Result<MutableMatrix>)
      requires Valid()
      modifies m
      ensures r.Err? <==> s == 0.0
      ensures r.Err? ==> r.error == DivisionByZero && Cells() == old(Cells())
      ensures r.Ok? ==> r.value == this && Cells() == Quotient(old(Cells()), s)
    {
      if s == 0.0 {
        return Err(DivisionByZero);
      }
      ghost var orig := Cells();
      ghost var target := Quotient(orig, s);
      var i := 0;
      while i < rows
        invariant 0 <= i <= rows
        invariant Progress(m, orig, target, i, 0)
      {
        var j := 0;
        while j < cols
          invariant 0 <= j <= cols
          invariant Progress(m, orig, target, i, j)
        {
          m[i, j] := m[i, j] / s;
          j := j + 1;
        }
        i := i + 1;
      }
      ProgressDone(m, orig, target);
      return Ok(this);
    }

    /** Replaces every cell by f of its value and returns the receiver. */
    method Apply(f: real -> real) returns (r: MutableMatrix)
      requires Valid()
      modifies m
      ensures r == this
      ensures Cells() == Mapped(old(Cells()), f)
    {
      ghost var orig := Cells();
      ghost var target := Mapped(orig, f);
      var i := 0;
      while i < rows
        invariant 0 <= i <= rows
        invariant Progress(m, orig, target, i, 0)
      {
        var j := 0;
        while j < cols
          invariant 0 <= j <= cols
          invariant Progress(m, orig, target, i, j)
        {
          m[i, j] := f(m[i, j]);
          j := j + 1;
        }
        i := i + 1;
      }
      ProgressDone(m, orig, target);
      return this;
    }

    /** Replaces the contents of a square matrix by its transpose and returns
        the receiver. */
    method Transpose() returns (r: MutableMatrix)
      requires Valid() && rows == cols
      modifies m
      ensures r == this
      ensures Cells() == Transposed(old(Cells()), cols)
    {
      ghost var orig := Cells();
      ghost var target := Transposed(orig, cols);
      var t := new real[cols, rows]((_, _) => 0.0);
      var i := 0;
      while i < rows
        invariant 0 <= i <= rows
        invariant forall p, q :: 0 <= p < cols && 0 <= q < rows ==>
          t[p, q] == if q < i then target[p][q] else 0.0
        modifies t
      {
        var j := 0;
        while j < cols
          invariant 0 <= j <= cols
          invariant forall p, q :: 0 <= p < cols && 0 <= q < rows ==>
            t[p, q] == if q < i || (q == i && p < j) then target[p][q] else 0.0
          modifies t
        {
          t[j, i] := m[i, j];
          j := j + 1;
        }
        i := i + 1;
      }
      ElementsOf(t, target);
      Copy(t, m);
      return this;
    }

    /** Sets every cell to v and returns the receiver. */
    method Fill(v: real) returns (r: MutableMatrix)
      requires Valid()
      modifies m
      ensures r == this
      ensures Cells() == Filled(old(Cells()), v)
    {
      ghost var orig := Cells();
      ghost var target := Filled(orig, v);
      var i := 0;
      while i < rows
        invariant 0 <= i <= rows
        invariant Progress(m, orig, target, i, 0)
      {
        var j := 0;
        while j < cols
          invariant 0 <= j <= cols
          invariant Progress(m, orig, target, i, j)
        {
          m[i, j] := v;
          j := j + 1;
        }
        i := i + 1;
      }
      ProgressDone(m, orig, target);
      return this;
    }
  }

  // ---------------------------------------------------------------------------
  // Chained calls: what a caller can prove from the contracts alone

  /** a.add(n).subtract(n) restores a, provided n does not share a's array
      (otherwise the first call doubles every cell and the second zeroes it). */
  method AddThenSubtract(a: MutableMatrix, n: MutableMatrix) returns (r: MutableMatrix)
    requires a.Valid() && n.Valid() && n.rows == a.rows && n.cols == a.cols && n.m != a.m
    modifies a.m
    ensures r == a && a.Cells() == old(a.Cells())
  {
    var b := a.Add(n);
    r := b.Subtract(n);
    SubtractUndoesAdd(old(a.Cells()), old(n.Cells()));
  }

  /** a.multiply(s).divide(s) succeeds and restores a for every nonzero s. */
  method MultiplyThenDivide(a: MutableMatrix, s: real) returns (r: Result<MutableMatrix>)
    requires a.Valid() && s != 0.0
    modifies a.m
    ensures r == Ok(a) && a.Cells() == old(a.Cells())
  {
    var b := a.Multiply(s);
    r := b.Divide(s);
    DivideUndoesMultiply(old(a.Cells()), s);
  }

  /** a.transpose().transpose() restores a square matrix. */
  method TransposeThenTranspose(a: MutableMatrix) returns (r: MutableMatrix)
    requires a.Valid() && a.rows == a.cols
    modifies a.m
    ensures r == a && a.Cells() == old(a.Cells())
  {
    var b := a.Transpose();
    r := b.Transpose();
    TransposeTwice(old(a.Cells()), a.cols);
  }

  /** a.fill(v).fill(v) leaves a as a.fill(v) does: every cell is v. */
  method FillThenFill(a: MutableMatrix, v: real) returns (r: MutableMatrix)
    requires a.Valid()
    modifies a.m
    ensures r == a && a.Cells() == Constant(a.rows, a.cols, v)
  {
    var b := a.Fill(v);
    r := b.Fill(v);
    FillIdempotent(old(a.Cells()), v);
    FilledIsConstant(old(a.Cells()), a.rows, a.cols, v);
  }
}
