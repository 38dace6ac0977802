/**
 * Dense real matrices stored column-major, as nalgebra's `DMatrix` stores them:
 * the cell in row r and column c lives at flat index `c * nrows + r`.
 */
module Matrices {

  datatype Dense = Dense(nrows: nat, ncols: nat, data: seq<real>)

  /** A well-formed matrix: its buffer holds exactly nrows * ncols cells. */
  type Matrix = m: Dense | |m.data| == m.nrows * m.ncols witness Dense(0, 0, [])

  /** Flat position of cell (r, c) in a column-major buffer with `nrows` rows. */
  function Offset(nrows: nat, r: nat, c: nat): nat {
    c * nrows + r
  }

  lemma MulMonotone(a: nat, b: nat, n: nat)
    requires a <= b
    ensures a * n <= b * n
  {
  }

  /** Every cell of an nrows x ncols matrix has its offset inside the buffer. */
  lemma OffsetsInRange(nrows: nat, ncols: nat)
    ensures forall r: nat, c: nat :: r < nrows && c < ncols ==> Offset(nrows, r, c) < nrows * ncols
  {
    forall r: nat, c: nat | r < nrows && c < ncols
      ensures Offset(nrows, r, c) < nrows * ncols
    {
      MulMonotone(c + 1, ncols, nrows);
    }
  }

  /** Distinct cells have distinct offsets. */
  lemma OffsetsDistinct(nrows: nat)
    ensures forall r1: nat, c1: nat, r2: nat, c2: nat ::
      r1 < nrows && r2 < nrows && Offset(nrows, r1, c1) == Offset(nrows, r2, c2) ==> r1 == r2 && c1 == c2
  {
    forall r1: nat, c1: nat, r2: nat, c2: nat |
      r1 < nrows && r2 < nrows && Offset(nrows, r1, c1) == Offset(nrows, r2, c2)
      ensures r1 == r2 && c1 == c2
    {
      if c1 < c2 {
        MulMonotone(c1 + 1, c2, nrows);
      } else if c2 < c1 {
        MulMonotone(c2 + 1, c1, nrows);
      }
    }
  }

  /** Every flat position of the buffer is the offset of exactly the cell (k % nrows, k / nrows). */
  lemma Decompose(nrows: nat, ncols: nat, k: nat)
    requires k < nrows * ncols
    ensures nrows > 0 && k % nrows < nrows && k / nrows < ncols
    ensures Offset(nrows, k % nrows, k / nrows) == k
  {
  }

  /** The cell (r, c) is recovered from its offset by division and remainder. */
  lemma OffsetDivMod(nrows: nat, r: nat, c: nat)
    requires r < nrows
    ensures Offset(nrows, r, c) % nrows == r && Offset(nrows, r, c) / nrows == c
  {
    var k := Offset(nrows, r, c);
    var q, s := k / nrows, k % nrows;
    assert k == q * nrows + s;
    if q < c {
      MulMonotone(q + 1, c, nrows);
    } else if c < q {
      MulMonotone(c + 1, q, nrows);
    }
  }

  /** The entry in row r and column c. */
  function At(m: Matrix, r: nat, c: nat): real
    requires r < m.nrows && c < m.ncols
  {
    OffsetsInRange(m.nrows, m.ncols);
    m.data[Offset(m.nrows, r, c)]
  }

  /** Row r of m, as `m.row(r)`. */
  function Row(m: Matrix, r: nat): (row: seq<real>)
    requires r < m.nrows
    ensures |row| == m.ncols
  {
    seq(m.ncols, c requires 0 <= c < m.ncols => At(m, r, c))
  }

  /** The nrows x ncols matrix whose cell (r, c) is f(r, c). */
  function Build(nrows: nat, ncols: nat, f: (nat, nat) -> real): (m: Matrix)
    ensures m.nrows == nrows && m.ncols == ncols
  {
    Dense(nrows, ncols, seq(nrows * ncols, k requires 0 <= k < nrows * ncols => f(k % nrows, k / nrows)))
  }

  lemma {:induction false} BuildAt(nrows: nat, ncols: nat, f: (nat, nat) -> real, r: nat, c: nat)
    requires r < nrows && c < ncols
    ensures At(Build(nrows, ncols, f), r, c) == f(r, c)
  {
    OffsetsInRange(nrows, ncols);
    OffsetDivMod(nrows, r, c);
  }

  /** Matrices of one shape that agree on every cell are equal. */
  lemma {:induction false} Ext(a: Matrix, b: Matrix)
    requires a.nrows == b.nrows && a.ncols == b.ncols
    requires forall r: nat, c: nat :: r < a.nrows && c < a.ncols ==> At(a, r, c) == At(b, r, c)
    ensures a == b
  {
    forall k | 0 <= k < |a.data|
      ensures a.data[k] == b.data[k]
    {
      Decompose(a.nrows, a.ncols, k);
      assert At(a, k % a.nrows, k / a.nrows) == At(b, k % a.nrows, k / a.nrows);
    }
  }

  /** A buffer that holds m's entry at the offset of every cell is m's buffer. */
  lemma {:induction false} FromEntries(s: seq<real>, m: Matrix)
    requires |s| == m.nrows * m.ncols
    requires forall r: nat, c: nat :: r < m.nrows && c < m.ncols ==>
      Offset(m.nrows, r, c) < |s| && s[Offset(m.nrows, r, c)] == At(m, r, c)
    ensures s == m.data
  {
    forall k | 0 <= k < |s|
      ensures s[k] == m.data[k]
    {
      Decompose(m.nrows, m.ncols, k);
      assert s[Offset(m.nrows, k % m.nrows, k / m.nrows)] == At(m, k % m.nrows, k / m.nrows);
    }
  }

  /** The nrows x ncols matrix with every cell equal to v. */
  function Filled(nrows: nat, ncols: nat, v: real): (m: Matrix)
    ensures m.nrows == nrows && m.ncols == ncols
  {
    Build(nrows, ncols, (r: nat, c: nat) => v)
  }

  /** nalgebra's `transpose`. */
  function Transpose(m: Matrix): (t: Matrix)
    ensures t.nrows == m.ncols && t.ncols == m.nrows
  {
    Build(m.ncols, m.nrows, (r: nat, c: nat) => if c < m.nrows && r < m.ncols then At(m, c, r) else 0.0)
  }

  lemma TransposeAt(m: Matrix, r: nat, c: nat)
    requires r < m.ncols && c < m.nrows
    ensures At(Transpose(m), r, c) == At(m, c, r)
  {
    BuildAt(m.ncols, m.nrows, (r: nat, c: nat) => if c < m.nrows && r < m.ncols then At(m, c, r) else 0.0, r, c);
  }

  /** Sum over the first k columns of (a[i, j] - b[l, j])^2: the iterator
      `(a.row(i) - b.row(l)).iter().map(|v| v.powf(2.0)).sum()`, summed left to right. */
  function RowSqDistPrefix(a: Matrix, i: nat, b: Matrix, l: nat, k: nat): real
    requires i < a.nrows && l < b.nrows && a.ncols == b.ncols && k <= a.ncols
  {
    if k == 0 then 0.0
    else RowSqDistPrefix(a, i, b, l, k - 1) + (At(a, i, k - 1) - At(b, l, k - 1)) * (At(a, i, k - 1) - At(b, l, k - 1))
  }

  /** Squared Euclidean distance between row i of a and row l of b. */
  function RowSqDist(a: Matrix, i: nat, b: Matrix, l: nat): real
    requires i < a.nrows && l < b.nrows && a.ncols == b.ncols
  {
    RowSqDistPrefix(a, i, b, l, a.ncols)
  }

  lemma {:induction false} RowSqDistPrefixFacts(a: Matrix, i: nat, b: Matrix, l: nat, k: nat)
    requires i < a.nrows && l < b.nrows && a.ncols == b.ncols && k <= a.ncols
    ensures RowSqDistPrefix(a, i, b, l, k) >= 0.0
    ensures (forall j :: 0 <= j < k ==> At(a, i, j) == At(b, l, j)) ==> RowSqDistPrefix(a, i, b, l, k) == 0.0
  {
    if k > 0 {
      RowSqDistPrefixFacts(a, i, b, l, k - 1);
    }
  }

  /** A squared distance is never negative, and it is zero between equal rows. */
  lemma RowSqDistFacts(a: Matrix, i: nat, b: Matrix, l: nat)
    requires i < a.nrows && l < b.nrows && a.ncols == b.ncols
    ensures RowSqDist(a, i, b, l) >= 0.0
    ensures (forall j :: 0 <= j < a.ncols ==> At(a, i, j) == At(b, l, j)) ==> RowSqDist(a, i, b, l) == 0.0
  {
    RowSqDistPrefixFacts(a, i, b, l, a.ncols);
  }
}
