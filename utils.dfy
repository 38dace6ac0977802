/**
 * The dense-matrix utilities of src/utils/utils.rs. Each Rust function that
 * fills a zeroed buffer cell by cell is a method over a local array, proved to
 * return the matrix a specification function describes; lemmas say what the
 * specification means cell by cell.
 */
module Utils {
  import opened Outcomes
  import opened Matrices
  import opened Shuffles

  // ---------------------------------------------------------------- slice_by_row

  /** Every index names a row of a. */
  predicate RowsInRange(a: Matrix, idx: seq<nat>) {
    forall i :: 0 <= i < |idx| ==> idx[i] < a.nrows
  }

  /** The rows of a named by idx, in the order of idx (duplicates repeat a row). */
  function SliceRows(a: Matrix, idx: seq<nat>): (m: Matrix)
    ensures m.nrows == |idx| && m.ncols == a.ncols
  {
    Build(|idx|, a.ncols, (i: nat, c: nat) =>
      if i < |idx| && idx[i] < a.nrows && c < a.ncols then At(a, idx[i], c) else 0.0)
  }

  lemma SliceRowsAt(a: Matrix, idx: seq<nat>, i: nat, c: nat)
    requires i < |idx| && idx[i] < a.nrows && c < a.ncols
    ensures At(SliceRows(a, idx), i, c) == At(a, idx[i], c)
  {
    BuildAt(|idx|, a.ncols, (i: nat, c: nat) =>
      if i < |idx| && idx[i] < a.nrows && c < a.ncols then At(a, idx[i], c) else 0.0, i, c);
  }

  /** Row i of the slice is row idx[i] of a. */
  lemma SliceRowsRow(a: Matrix, idx: seq<nat>, i: nat)
    requires i < |idx| && idx[i] < a.nrows
    ensures Row(SliceRows(a, idx), i) == Row(a, idx[i])
  {
    forall c | 0 <= c < a.ncols
      ensures Row(SliceRows(a, idx), i)[c] == Row(a, idx[i])[c]
    {
      SliceRowsAt(a, idx, i, c);
    }
  }

  /** Taking every row in its own order gives the matrix back. */
  lemma SliceAllRows(a: Matrix)
    ensures SliceRows(a, Range(a.nrows)) == a
  {
    forall r: nat, c: nat | r < a.nrows && c < a.ncols
      ensures At(SliceRows(a, Range(a.nrows)), r, c) == At(a, r, c)
    {
      SliceRowsAt(a, Range(a.nrows), r, c);
    }
    Ext(SliceRows(a, Range(a.nrows)), a);
  }

  /** Slicing a slice picks rows of the original through the composed indices. */
  lemma SliceOfSlice(a: Matrix, idx: seq<nat>, jdx: seq<nat>)
    requires RowsInRange(a, idx) && forall j :: 0 <= j < |jdx| ==> jdx[j] < |idx|
    ensures SliceRows(SliceRows(a, idx), jdx) == SliceRows(a, seq(|jdx|, j requires 0 <= j < |jdx| => idx[jdx[j]]))
  {
    var composed := seq(|jdx|, j requires 0 <= j < |jdx| => idx[jdx[j]]);
    forall r: nat, c: nat | r < |jdx| && c < a.ncols
      ensures At(SliceRows(SliceRows(a, idx), jdx), r, c) == At(SliceRows(a, composed), r, c)
    {
      SliceRowsAt(SliceRows(a, idx), jdx, r, c);
      SliceRowsAt(a, idx, jdx[r], c);
      SliceRowsAt(a, composed, r, c);
    }
    Ext(SliceRows(SliceRows(a, idx), jdx), SliceRows(a, composed));
  }

  /** `slice_by_row`: panics on the first out-of-range index, unless a has no columns to read. */
  method SliceByRow(a: Matrix, idx: seq<nat>) returns (res: Result<Matrix>)
    ensures res.Panic? <==> a.ncols > 0 && !RowsInRange(a, idx)
    ensures res.Ok? ==> res.value == SliceRows(a, idx)
  {
    var len := |idx|;
    var values := new real[len * a.ncols](_ => 0.0);
    OffsetsInRange(len, a.ncols);
    OffsetsDistinct(len);
    for i := 0 to len
      invariant a.ncols > 0 ==> forall r :: 0 <= r < i ==> idx[r] < a.nrows
      invariant forall r: nat, c: nat :: r < i && c < a.ncols ==> values[Offset(len, r, c)] == At(a, idx[r], c)
    {
      var row := idx[i];
      for col := 0 to a.ncols
        invariant col > 0 ==> row < a.nrows
        invariant forall r: nat, c: nat :: r < i && c < a.ncols ==> values[Offset(len, r, c)] == At(a, idx[r], c)
        invariant forall c: nat :: c < col ==> values[Offset(len, i, c)] == At(a, row, c)
      {
        if row >= a.nrows {
          return Panic(IndexOutOfBounds);
        }
        values[Offset(len, i, col)] := At(a, row, col);
      }
    }
    forall r: nat, c: nat | r < len && c < a.ncols
      ensures values[..][Offset(len, r, c)] == At(SliceRows(a, idx), r, c)
    {
      SliceRowsAt(a, idx, r, c);
    }
    FromEntries(values[..], SliceRows(a, idx));
    return Ok(Dense(len, a.ncols, values[..]));
  }

  // ---------------------------------------------------------------- append_column

  /** m with `column` as one more, last column; entries of `column` past m's rows are unused. */
  function WithColumn(m: Matrix, column: seq<real>): (r: Matrix)
    ensures r.nrows == m.nrows && r.ncols == m.ncols + 1
  {
    Build(m.nrows, m.ncols + 1, (i: nat, j: nat) =>
      if i < m.nrows && j < m.ncols then At(m, i, j) else if i < |column| then column[i] else 0.0)
  }

  lemma WithColumnAt(m: Matrix, column: seq<real>, i: nat, j: nat)
    requires i < m.nrows && i < |column| && j <= m.ncols
    ensures At(WithColumn(m, column), i, j) == if j < m.ncols then At(m, i, j) else column[i]
  {
    BuildAt(m.nrows, m.ncols + 1, (i: nat, j: nat) =>
      if i < m.nrows && j < m.ncols then At(m, i, j) else if i < |column| then column[i] else 0.0, i, j);
  }

  /** Extra entries of the column make no difference. */
  lemma WithColumnIgnoresExtra(m: Matrix, column: seq<real>)
    requires |column| >= m.nrows
    ensures WithColumn(m, column) == WithColumn(m, column[..m.nrows])
  {
    forall i: nat, j: nat | i < m.nrows && j < m.ncols + 1
      ensures At(WithColumn(m, column), i, j) == At(WithColumn(m, column[..m.nrows]), i, j)
    {
      WithColumnAt(m, column, i, j);
      WithColumnAt(m, column[..m.nrows], i, j);
    }
    Ext(WithColumn(m, column), WithColumn(m, column[..m.nrows]));
  }

  /** `append_column`: panics when the column is shorter than m has rows. */
  method AppendColumn(m: Matrix, column: seq<real>) returns (res: Result<Matrix>)
    ensures res.Panic? <==> |column| < m.nrows
    ensures res.Ok? ==> res.value == WithColumn(m, column)
  {
    var rows, cols := m.nrows, m.ncols + 1;
    var values := new real[rows * cols](_ => 0.0);
    OffsetsInRange(rows, cols);
    OffsetsDistinct(rows);
    for i := 0 to rows
      invariant i <= |column|
      invariant forall r: nat, c: nat :: r < i && c < cols ==>
        values[Offset(rows, r, c)] == if c < m.ncols then At(m, r, c) else column[r]
    {
      for j := 0 to m.ncols
        invariant forall r: nat, c: nat :: r < i && c < cols ==>
          values[Offset(rows, r, c)] == if c < m.ncols then At(m, r, c) else column[r]
        invariant forall c: nat :: c < j ==> values[Offset(rows, i, c)] == At(m, i, c)
      {
        values[Offset(rows, i, j)] := At(m, i, j);
      }
      if i >= |column| {
        return Panic(IndexOutOfBounds);
      }
      values[Offset(rows, i, m.ncols)] := column[i];
    }
    forall r: nat, c: nat | r < rows && c < cols
      ensures values[..][Offset(rows, r, c)] == At(WithColumn(m, column), r, c)
    {
      WithColumnAt(m, column, r, c);
    }
    FromEntries(values[..], WithColumn(m, column));
    return Ok(Dense(rows, cols, values[..]));
  }

  // ---------------------------------------------------------------- flat_matrix

  /** `flat_matrix`: a cell-by-cell copy, equal to m. */
  method FlatMatrix(m: Matrix) returns (copy: Matrix)
    ensures copy == m
  {
    var values := new real[m.nrows * m.ncols](_ => 0.0);
    OffsetsInRange(m.nrows, m.ncols);
    OffsetsDistinct(m.nrows);
    for i := 0 to m.nrows
      invariant forall r: nat, c: nat :: r < i && c < m.ncols ==> values[Offset(m.nrows, r, c)] == At(m, r, c)
    {
      for j := 0 to m.ncols
        invariant forall r: nat, c: nat :: r < i && c < m.ncols ==> values[Offset(m.nrows, r, c)] == At(m, r, c)
        invariant forall c: nat :: c < j ==> values[Offset(m.nrows, i, c)] == At(m, i, c)
      {
        values[Offset(m.nrows, i, j)] := At(m, i, j);
      }
    }
    FromEntries(values[..], m);
    copy := Dense(m.nrows, m.ncols, values[..]);
  }

  // ---------------------------------------------------------------- matmul

  /** Sum of a[r, i] * b[i, c] over i < k, accumulated left to right. */
  function DotPrefix(a: Matrix, b: Matrix, r: nat, c: nat, k: nat): real
    requires r < a.nrows && c < b.ncols && a.ncols == b.nrows && k <= a.ncols
  {
    if k == 0 then 0.0 else DotPrefix(a, b, r, c, k - 1) + At(a, r, k - 1) * At(b, k - 1, c)
  }

  /** The matrix product a · b. */
  function Product(a: Matrix, b: Matrix): (p: Matrix)
    requires a.ncols == b.nrows
    ensures p.nrows == a.nrows && p.ncols == b.ncols
  {
    Build(a.nrows, b.ncols, (r: nat, c: nat) =>
      if r < a.nrows && c < b.ncols then DotPrefix(a, b, r, c, a.ncols) else 0.0)
  }

  lemma ProductAt(a: Matrix, b: Matrix, r: nat, c: nat)
    requires a.ncols == b.nrows && r < a.nrows && c < b.ncols
    ensures At(Product(a, b), r, c) == DotPrefix(a, b, r, c, a.ncols)
  {
    BuildAt(a.nrows, b.ncols, (r: nat, c: nat) =>
      if r < a.nrows && c < b.ncols then DotPrefix(a, b, r, c, a.ncols) else 0.0, r, c);
  }

  /** The n x n identity matrix. */
  function Identity(n: nat): (m: Matrix)
    ensures m.nrows == n && m.ncols == n
  {
    Build(n, n, (r: nat, c: nat) => if r == c then 1.0 else 0.0)
  }

  lemma IdentityAt(n: nat, r: nat, c: nat)
    requires r < n && c < n
    ensures At(Identity(n), r, c) == if r == c then 1.0 else 0.0
  {
    BuildAt(n, n, (r: nat, c: nat) => if r == c then 1.0 else 0.0, r, c);
  }

  lemma {:induction false} DotWithIdentity(a: Matrix, r: nat, c: nat, k: nat)
    requires r < a.nrows && c < a.ncols && k <= a.ncols
    ensures DotPrefix(a, Identity(a.ncols), r, c, k) == if c < k then At(a, r, c) else 0.0
  {
    if k > 0 {
      DotWithIdentity(a, r, c, k - 1);
      IdentityAt(a.ncols, k - 1, c);
    }
  }

  lemma {:induction false} IdentityDot(a: Matrix, r: nat, c: nat, k: nat)
    requires r < a.nrows && c < a.ncols && k <= a.nrows
    ensures DotPrefix(Identity(a.nrows), a, r, c, k) == if r < k then At(a, r, c) else 0.0
  {
    if k > 0 {
      IdentityDot(a, r, c, k - 1);
      IdentityAt(a.nrows, r, k - 1);
    }
  }

  /** The identity is neutral on both sides of the product. */
  lemma ProductIdentity(a: Matrix)
    ensures Product(a, Identity(a.ncols)) == a
    ensures Product(Identity(a.nrows), a) == a
  {
    forall r: nat, c: nat | r < a.nrows && c < a.ncols
      ensures At(Product(a, Identity(a.ncols)), r, c) == At(a, r, c)
      ensures At(Product(Identity(a.nrows), a), r, c) == At(a, r, c)
    {
      ProductAt(a, Identity(a.ncols), r, c);
      DotWithIdentity(a, r, c, a.ncols);
      ProductAt(Identity(a.nrows), a, r, c);
      IdentityDot(a, r, c, a.nrows);
    }
    Ext(Product(a, Identity(a.ncols)), a);
    Ext(Product(Identity(a.nrows), a), a);
  }

  /** The running sum `s` of `matmul`'s innermost loop, for one cell (r, c). */
  method RunningSum(a: Matrix, b: Matrix, r: nat, c: nat) returns (s: real)
    requires r < a.nrows && c < b.ncols && a.ncols == b.nrows
    ensures s == DotPrefix(a, b, r, c, a.ncols)
  {
    s := 0.0;
    for i := 0 to a.ncols
      invariant s == DotPrefix(a, b, r, c, i)
    {
      s := s + At(a, r, i) * At(b, i, c);
    }
  }

  /** `matmul`: panics unless a's column count equals b's row count. */
  method MatMul(a: Matrix, b: Matrix) returns (res: Result<Matrix>)
    ensures a.ncols != b.nrows <==> res == Panic(ShapeMismatch)
    ensures a.ncols == b.nrows ==> res == Ok(Product(a, b))
  {
    if a.ncols != b.nrows {
      return Panic(ShapeMismatch);
    }
    var inner := a.ncols;
    var rows, cols := a.nrows, b.ncols;
    var values := new real[rows * cols](_ => 0.0);
    OffsetsInRange(rows, cols);
    OffsetsDistinct(rows);
    for r := 0 to rows
      invariant forall i: nat, j: nat :: i < r && j < cols ==> values[Offset(rows, i, j)] == DotPrefix(a, b, i, j, inner)
    {
      for c := 0 to cols
        invariant forall i: nat, j: nat :: i < r && j < cols ==> values[Offset(rows, i, j)] == DotPrefix(a, b, i, j, inner)
        invariant forall j: nat :: j < c ==> values[Offset(rows, r, j)] == DotPrefix(a, b, r, j, inner)
      {
        var s := RunningSum(a, b, r, c);
        values[Offset(rows, r, c)] := s;
      }
    }
    forall i: nat, j: nat | i < rows && j < cols
      ensures values[..][Offset(rows, i, j)] == At(Product(a, b), i, j)
    {
      ProductAt(a, b, i, j);
    }
    FromEntries(values[..], Product(a, b));
    return Ok(Dense(rows, cols, values[..]));
  }

  // ---------------------------------------------------------------- expand_matrix

  /** v raised to a whole power, as `powf` with an integral exponent. */
  function Pow(v: real, e: nat): real {
    if e == 0 then 1.0 else Pow(v, e - 1) * v
  }

  /** Polynomial layout of the value at flat position `row` of x: columns hold
      its powers 1 .. degree-1, and the last column holds the power 0. */
  function Expand(x: Matrix, degree: nat): (m: Matrix)
    ensures m.nrows == x.nrows && m.ncols == degree
  {
    Build(x.nrows, degree, (row: nat, col: nat) =>
      if row < |x.data| && col + 1 < degree then Pow(x.data[row], col + 1) else 1.0)
  }

  /** The flat position `row` is the cell (row, 0): only the first column is expanded. */
  lemma ExpandAt(x: Matrix, degree: nat, row: nat, col: nat)
    requires row < x.nrows && 0 < x.ncols && col < degree
    ensures At(Expand(x, degree), row, col) == if col + 1 < degree then Pow(At(x, row, 0), col + 1) else 1.0
  {
    OffsetsInRange(x.nrows, x.ncols);
    assert At(x, row, 0) == x.data[row];
    BuildAt(x.nrows, degree, (row: nat, col: nat) =>
      if row < |x.data| && col + 1 < degree then Pow(x.data[row], col + 1) else 1.0, row, col);
  }

  /** Inputs that agree on their first column expand alike, whatever their other columns hold. */
  lemma ExpandOnlyReadsFirstColumn(x1: Matrix, x2: Matrix, degree: nat)
    requires x1.nrows == x2.nrows && 0 < x1.ncols && 0 < x2.ncols
    requires forall row :: 0 <= row < x1.nrows ==> At(x1, row, 0) == At(x2, row, 0)
    ensures Expand(x1, degree) == Expand(x2, degree)
  {
    forall row: nat, col: nat | row < x1.nrows && col < degree
      ensures At(Expand(x1, degree), row, col) == At(Expand(x2, degree), row, col)
    {
      ExpandAt(x1, degree, row, col);
      ExpandAt(x2, degree, row, col);
    }
    Ext(Expand(x1, degree), Expand(x2, degree));
  }

  /** `expand_matrix`: panics on a non-empty input with no column to read or a degree of 0. */
  method ExpandMatrix(x: Matrix, degree: nat) returns (res: Result<Matrix>)
    ensures res.Panic? <==> 0 < x.nrows && (x.ncols == 0 || degree == 0)
    ensures res.Ok? ==> res.value == Expand(x, degree)
  {
    var rows := x.nrows;
    var values := new real[rows * degree](_ => 0.0);
    OffsetsInRange(rows, degree);
    OffsetsDistinct(rows);
    for row := 0 to rows
      invariant 0 < row ==> row <= |x.data| && 0 < degree
      invariant forall r: nat, c: nat :: r < row && c < degree ==>
        values[Offset(rows, r, c)] == if c + 1 < degree then Pow(x.data[r], c + 1) else 1.0
    {
      if row >= |x.data| {
        return Panic(IndexOutOfBounds);
      }
      var col := 1;
      while col < degree
        invariant 1 <= col
        invariant forall r: nat, c: nat :: r < row && c < degree ==>
          values[Offset(rows, r, c)] == if c + 1 < degree then Pow(x.data[r], c + 1) else 1.0
        invariant forall c: nat :: c + 1 < col && c < degree ==> values[Offset(rows, row, c)] == Pow(x.data[row], c + 1)
      {
        values[Offset(rows, row, col - 1)] := Pow(x.data[row], col);
        col := col + 1;
      }
      if degree == 0 {
        return Panic(Overflow);
      }
      values[Offset(rows, row, degree - 1)] := Pow(x.data[row], 0);
    }
    forall r: nat, c: nat | r < rows && c < degree
      ensures values[..][Offset(rows, r, c)] == At(Expand(x, degree), r, c)
    {
      BuildAt(x.nrows, degree, (row: nat, col: nat) =>
        if row < |x.data| && col + 1 < degree then Pow(x.data[row], col + 1) else 1.0, r, c);
    }
    FromEntries(values[..], Expand(x, degree));
    return Ok(Dense(rows, degree, values[..]));
  }

  // ---------------------------------------------------------------- train_test_split

  /** The four matrices `train_test_split` returns. */
  datatype Split = Split(xTrain: Matrix, xTest: Matrix, yTrain: Matrix, yTest: Matrix)

  /** `((n as f32) * test_size) as usize`: the product cut down to a whole number. */
  function TestCount(n: nat, testSize: real): (t: nat)
    requires 0.0 < testSize <= 1.0
    ensures t <= n
  {
    assert 0.0 <= n as real * testSize <= n as real;
    (n as real * testSize).Floor
  }

  /** Test rows are order[..nTest] and train rows order[nTest..], taken from x and y alike. */
  function SplitBy(x: Matrix, y: Matrix, order: seq<nat>, nTest: nat): Split
    requires nTest <= |order|
  {
    Split(SliceRows(x, order[nTest..]), SliceRows(x, order[..nTest]),
          SliceRows(y, order[nTest..]), SliceRows(y, order[..nTest]))
  }

  /** `train_test_split`, with the shuffle supplied as the order it leaves the row indices in. */
  method TrainTestSplit(x: Matrix, y: Matrix, testSize: real, shuffle: bool, shuffled: seq<nat>)
    returns (res: Result<Split>)
    requires shuffle ==> IsShuffle(shuffled, y.nrows)
    ensures x.nrows != y.nrows ==> res == Panic(ShapeMismatch)
    ensures x.nrows == y.nrows && (testSize <= 0.0 || testSize > 1.0) ==> res == Panic(InvalidTestSize)
    ensures x.nrows == y.nrows && 0.0 < testSize <= 1.0 && TestCount(y.nrows, testSize) < 1 ==>
      res == Panic(TooFewSamples)
    ensures x.nrows == y.nrows && 0.0 < testSize <= 1.0 && TestCount(y.nrows, testSize) >= 1 ==>
      res == Ok(SplitBy(x, y, if shuffle then shuffled else Range(y.nrows), TestCount(y.nrows, testSize)))
  {
    if x.nrows != y.nrows {
      return Panic(ShapeMismatch);
    }
    if testSize <= 0.0 || testSize > 1.0 {
      return Panic(InvalidTestSize);
    }
    var n := y.nrows;
    var nTest := TestCount(n, testSize);
    if nTest < 1 {
      return Panic(TooFewSamples);
    }
    var indices := Range(n);
    if shuffle {
      indices := shuffled;
    }
    RangeIsShuffle(n);
    CutsInRange(x, indices, nTest);
    CutsInRange(y, indices, nTest);
    var xTrain := SliceByRow(x, indices[nTest..n]);
    var xTest := SliceByRow(x, indices[0..nTest]);
    var yTrain := SliceByRow(y, indices[nTest..n]);
    var yTest := SliceByRow(y, indices[0..nTest]);
    assert indices[nTest..n] == indices[nTest..] && indices[0..nTest] == indices[..nTest];
    return Ok(Split(xTrain.value, xTest.value, yTrain.value, yTest.value));
  }

  /** Both parts of a cut shuffle of a's row indices name rows of a. */
  lemma CutsInRange(a: Matrix, p: seq<nat>, t: nat)
    requires IsShuffle(p, a.nrows) && t <= a.nrows
    ensures |p| == a.nrows
    ensures RowsInRange(a, p[t..a.nrows]) && RowsInRange(a, p[0..t])
  {
    ShuffleFacts(p, a.nrows);
  }

  /** A split by a shuffle of 0..n: the parts' row counts add up to n, every original row
      lands in exactly one part, and the i-th rows of the x and y parts come from the same
      original row. */
  lemma SplitFacts(x: Matrix, y: Matrix, order: seq<nat>, nTest: nat)
    requires x.nrows == y.nrows && IsShuffle(order, y.nrows) && nTest <= y.nrows
    ensures |order| == y.nrows
    ensures SplitBy(x, y, order, nTest).xTrain.nrows + SplitBy(x, y, order, nTest).xTest.nrows == x.nrows
    ensures SplitBy(x, y, order, nTest).yTrain.nrows + SplitBy(x, y, order, nTest).yTest.nrows == y.nrows
    ensures forall k: nat :: k < y.nrows ==> k in order[..nTest] || k in order[nTest..]
    ensures forall k: nat :: k in order[..nTest] ==> k !in order[nTest..]
    ensures forall i :: 0 <= i < nTest ==>
      order[i] < y.nrows &&
      Row(SplitBy(x, y, order, nTest).xTest, i) == Row(x, order[i]) &&
      Row(SplitBy(x, y, order, nTest).yTest, i) == Row(y, order[i])
    ensures forall i :: 0 <= i < y.nrows - nTest ==>
      order[nTest + i] < y.nrows &&
      Row(SplitBy(x, y, order, nTest).xTrain, i) == Row(x, order[nTest + i]) &&
      Row(SplitBy(x, y, order, nTest).yTrain, i) == Row(y, order[nTest + i])
  {
    ShuffleFacts(order, y.nrows);
    SplitPartitions(order, y.nrows, nTest);
    forall i | 0 <= i < nTest
      ensures Row(SplitBy(x, y, order, nTest).xTest, i) == Row(x, order[i])
      ensures Row(SplitBy(x, y, order, nTest).yTest, i) == Row(y, order[i])
    {
      SliceRowsRow(x, order[..nTest], i);
      SliceRowsRow(y, order[..nTest], i);
    }
    forall i | 0 <= i < y.nrows - nTest
      ensures Row(SplitBy(x, y, order, nTest).xTrain, i) == Row(x, order[nTest + i])
      ensures Row(SplitBy(x, y, order, nTest).yTrain, i) == Row(y, order[nTest + i])
    {
      SliceRowsRow(x, order[nTest..], i);
      SliceRowsRow(y, order[nTest..], i);
    }
  }

  /** Without shuffling, the test part is the first nTest rows in order and the train part the rest. */
  lemma UnshuffledSplit(x: Matrix, y: Matrix, nTest: nat)
    requires x.nrows == y.nrows && nTest <= y.nrows
    ensures forall i :: 0 <= i < nTest ==>
      Row(SplitBy(x, y, Range(y.nrows), nTest).xTest, i) == Row(x, i) &&
      Row(SplitBy(x, y, Range(y.nrows), nTest).yTest, i) == Row(y, i)
    ensures forall i :: 0 <= i < y.nrows - nTest ==>
      Row(SplitBy(x, y, Range(y.nrows), nTest).xTrain, i) == Row(x, nTest + i) &&
      Row(SplitBy(x, y, Range(y.nrows), nTest).yTrain, i) == Row(y, nTest + i)
  {
    RangeIsShuffle(y.nrows);
    SplitFacts(x, y, Range(y.nrows), nTest);
  }

  // ---------------------------------------------------------------- accuracy

  /** The number of positions k < |yHat| where yHat[k] equals yTarget[k]. */
  function MatchCount(yHat: seq<real>, yTarget: seq<real>): (count: nat)
    requires |yHat| <= |yTarget|
    ensures count <= |yHat|
  {
    if |yHat| == 0 then 0
    else MatchCount(yHat[..|yHat| - 1], yTarget) + if yHat[|yHat| - 1] == yTarget[|yHat| - 1] then 1 else 0
  }

  /** An f32 quotient: a number, or the NaN of 0.0 / 0.0. */
  datatype Score = Ratio(value: real) | NotANumber

  /** `accuracy`: the share of matching positions; reading yTarget past its end panics. */
  function Accuracy(yHat: seq<real>, yTarget: seq<real>): (r: Result<Score>)
    ensures r.Panic? <==> |yHat| > |yTarget|
    ensures r == Ok(NotANumber) <==> yHat == [] && yTarget == []
    ensures r.Ok? && r.value.Ratio? ==> 0.0 <= r.value.value <= 1.0
  {
    if |yHat| > |yTarget| then Panic(IndexOutOfBounds)
    else if |yTarget| == 0 then Ok(NotANumber)
    else Ok(Ratio(MatchCount(yHat, yTarget) as real / |yTarget| as real))
  }

  lemma {:induction false} MatchCountAll(yHat: seq<real>, yTarget: seq<real>)
    requires |yHat| <= |yTarget|
    requires forall k :: 0 <= k < |yHat| ==> yHat[k] == yTarget[k]
    ensures MatchCount(yHat, yTarget) == |yHat|
  {
    if |yHat| > 0 {
      MatchCountAll(yHat[..|yHat| - 1], yTarget);
    }
  }

  lemma {:induction false} MatchCountNone(yHat: seq<real>, yTarget: seq<real>)
    requires |yHat| <= |yTarget|
    requires forall k :: 0 <= k < |yHat| ==> yHat[k] != yTarget[k]
    ensures MatchCount(yHat, yTarget) == 0
  {
    if |yHat| > 0 {
      MatchCountNone(yHat[..|yHat| - 1], yTarget);
    }
  }

  /** Identical non-empty vectors score 1. */
  lemma AccuracyOfIdentical(y: seq<real>)
    requires |y| > 0
    ensures Accuracy(y, y) == Ok(Ratio(1.0))
  {
    MatchCountAll(y, y);
    assert |y| as real / |y| as real == 1.0;
  }

  /** Non-empty vectors of one length that match nowhere score 0. */
  lemma AccuracyWithoutMatches(yHat: seq<real>, yTarget: seq<real>)
    requires |yHat| == |yTarget| > 0
    requires forall k :: 0 <= k < |yHat| ==> yHat[k] != yTarget[k]
    ensures Accuracy(yHat, yTarget) == Ok(Ratio(0.0))
  {
    MatchCountNone(yHat, yTarget);
  }
}
