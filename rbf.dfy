/**
 * The radial-basis-function regression of src/regressions/rbf_regression.rs.
 * `fit` expands the samples into polynomial features, copies randomly chosen
 * expanded samples into the centre matrix, builds the Gaussian kernel matrix G
 * (samples by centres) and solves the normal equations GᵀG w = Gᵀy with the
 * configured factorisation; `predict` multiplies the kernel matrix of new
 * samples by w.
 *
 * The exponential and the factorisation solvers are parameters: `exp` maps a
 * real to a real, `solve(f, A, b)` returns some matrix or None, None standing for
 * a failed nalgebra solve (the `unwrap` panics). What it computes is left open;
 * only its shape is fixed: like nalgebra's SVD, QR and LU solves, it answers with
 * one row per column of A and one column per column of b.
 */
module Rbf {
  import opened Outcomes
  import opened Matrices
  import opened Shuffles
  import opened Types
  import opened Utils

  type Solver = (Factorization, Matrix, Matrix) -> Option<Matrix>

  /** The answer to A w = b has A's column count as rows and b's column count as columns. */
  ghost predicate SolvesToShape(solve: Solver) {
    forall f, a, b :: solve(f, a, b).Some? ==>
      solve(f, a, b).value.nrows == a.ncols && solve(f, a, b).value.ncols == b.ncols
  }

  /** The factorisation `fit` solves with: the configured one, SVD when none is set. */
  function Effective(f: Option<Factorization>): Factorization {
    if f.Some? then f.value else SVD
  }

  // ---------------------------------------------------------------- calculate_gradient

  /** The Gaussian weight of a squared distance. */
  function Gauss(norm: real, beta: real, exp: real -> real): real {
    exp(-beta * norm)
  }

  /** The Gaussian kernel of sample r and centre c: exp(-beta * |centres[c] - x[r]|^2). */
  function Kernel(x: Matrix, r: nat, centers: Matrix, c: nat, beta: real, exp: real -> real): real
    requires r < x.nrows && c < centers.nrows && x.ncols == centers.ncols
  {
    Gauss(RowSqDist(centers, c, x, r), beta, exp)
  }

  /** The kernel matrix, samples by centres. Where the column counts differ it is all
      zeros (and then x or centres has no rows). */
  function Gradient(x: Matrix, centers: Matrix, beta: real, exp: real -> real): (g: Matrix)
    ensures g.nrows == x.nrows && g.ncols == centers.nrows
  {
    Build(x.nrows, centers.nrows, (r: nat, c: nat) =>
      if r < x.nrows && c < centers.nrows && x.ncols == centers.ncols
      then Kernel(x, r, centers, c, beta, exp) else 0.0)
  }

  lemma GradientAt(x: Matrix, centers: Matrix, beta: real, exp: real -> real, r: nat, c: nat)
    requires r < x.nrows && c < centers.nrows && x.ncols == centers.ncols
    ensures At(Gradient(x, centers, beta, exp), r, c) == Kernel(x, r, centers, c, beta, exp)
  {
    BuildAt(x.nrows, centers.nrows, (r: nat, c: nat) =>
      if r < x.nrows && c < centers.nrows && x.ncols == centers.ncols
      then Kernel(x, r, centers, c, beta, exp) else 0.0, r, c);
  }

  /** The norm in `calculate_gradient`: the squared differences of two rows, summed left to right. */
  method SquaredDistance(a: Matrix, i: nat, b: Matrix, l: nat) returns (norm: real)
    requires i < a.nrows && l < b.nrows && a.ncols == b.ncols
    ensures norm == RowSqDist(a, i, b, l)
  {
    norm := 0.0;
    for k := 0 to a.ncols
      invariant norm == RowSqDistPrefix(a, i, b, l, k)
    {
      var d := At(a, i, k) - At(b, l, k);
      norm := norm + d * d;
    }
  }

  /** `calculate_gradient`: panics when a centre row and a sample row differ in length. */
  method CalculateGradient(x: Matrix, centers: Matrix, beta: real, exp: real -> real) returns (res: Result<Matrix>)
    ensures res.Panic? <==> 0 < x.nrows && 0 < centers.nrows && x.ncols != centers.ncols
    ensures res.Ok? ==> res.value == Gradient(x, centers, beta, exp)
  {
    var rows, cols := x.nrows, centers.nrows;
    var values := new real[rows * cols](_ => 0.0);
    OffsetsInRange(rows, cols);
    OffsetsDistinct(rows);
    for row := 0 to rows
      invariant 0 < row && 0 < cols ==> x.ncols == centers.ncols
      invariant forall i: nat, j: nat :: i < row && j < cols ==>
        values[Offset(rows, i, j)] == Kernel(x, i, centers, j, beta, exp)
    {
      for col := 0 to cols
        invariant 0 < col ==> x.ncols == centers.ncols
        invariant forall i: nat, j: nat :: i < row && j < cols ==>
          values[Offset(rows, i, j)] == Kernel(x, i, centers, j, beta, exp)
        invariant forall j: nat :: j < col ==> values[Offset(rows, row, j)] == Kernel(x, row, centers, j, beta, exp)
      {
        if x.ncols != centers.ncols {
          return Panic(ShapeMismatch);
        }
        var norm := SquaredDistance(centers, col, x, row);
        values[Offset(rows, row, col)] := Gauss(norm, beta, exp);
      }
    }
    forall i: nat, j: nat | i < rows && j < cols
      ensures values[..][Offset(rows, i, j)] == At(Gradient(x, centers, beta, exp), i, j)
    {
      GradientAt(x, centers, beta, exp, i, j);
    }
    FromEntries(values[..], Gradient(x, centers, beta, exp));
    return Ok(Dense(rows, cols, values[..]));
  }

  /** With beta >= 0 and an increasing exp, a nearer centre gets at least the kernel value of
      a farther one, and no kernel value exceeds exp(0). */
  lemma NearerCenterWeighsMore(x: Matrix, centers: Matrix, beta: real, exp: real -> real, r: nat, c1: nat, c2: nat)
    requires r < x.nrows && c1 < centers.nrows && c2 < centers.nrows && x.ncols == centers.ncols
    requires 0.0 <= beta && forall a: real, b: real :: a <= b ==> exp(a) <= exp(b)
    requires RowSqDist(centers, c1, x, r) <= RowSqDist(centers, c2, x, r)
    ensures At(Gradient(x, centers, beta, exp), r, c2) <= At(Gradient(x, centers, beta, exp), r, c1) <= exp(0.0)
  {
    var d1, d2 := RowSqDist(centers, c1, x, r), RowSqDist(centers, c2, x, r);
    GradientAt(x, centers, beta, exp, r, c1);
    GradientAt(x, centers, beta, exp, r, c2);
    RowSqDistFacts(centers, c1, x, r);
    ScaledOrder(beta, d1, d2);
    assert exp(-beta * d2) <= exp(-beta * d1);
    assert exp(-beta * d1) <= exp(0.0);
  }

  lemma ScaledOrder(beta: real, d1: real, d2: real)
    requires 0.0 <= beta && 0.0 <= d1 <= d2
    ensures -beta * d2 <= -beta * d1 <= 0.0
  {
  }

  // ---------------------------------------------------------------- fit

  /** The centres after `fit`'s sampling loop: centre r, for r below both the number of centres
      and the number of samples, is expanded sample perm[r]; the other centres keep their values. */
  function SampledCenters(prev: Matrix, samples: Matrix, perm: seq<nat>): (m: Matrix)
    requires prev.ncols == samples.ncols && IsShuffle(perm, samples.nrows)
    ensures m.nrows == prev.nrows && m.ncols == prev.ncols
  {
    ShuffleFacts(perm, samples.nrows);
    Build(prev.nrows, prev.ncols, (r: nat, c: nat) =>
      if r < prev.nrows && c < prev.ncols then
        if r < |perm| then At(samples, perm[r], c) else At(prev, r, c)
      else 0.0)
  }

  lemma SampledCentersAt(prev: Matrix, samples: Matrix, perm: seq<nat>, r: nat, c: nat)
    requires prev.ncols == samples.ncols && IsShuffle(perm, samples.nrows)
    requires r < prev.nrows && c < prev.ncols
    ensures r < |perm| ==> perm[r] < samples.nrows && At(SampledCenters(prev, samples, perm), r, c) == At(samples, perm[r], c)
    ensures |perm| <= r ==> At(SampledCenters(prev, samples, perm), r, c) == At(prev, r, c)
  {
    ShuffleFacts(perm, samples.nrows);
    BuildAt(prev.nrows, prev.ncols, (r: nat, c: nat) =>
      if r < prev.nrows && c < prev.ncols then
        if r < |perm| then At(samples, perm[r], c) else At(prev, r, c)
      else 0.0, r, c);
  }

  /** Sampling takes distinct samples as centres, one per centre while samples last, and
      leaves the remaining centres as they were. */
  lemma SampledCentersRows(prev: Matrix, samples: Matrix, perm: seq<nat>)
    requires prev.ncols == samples.ncols && IsShuffle(perm, samples.nrows)
    ensures forall r :: 0 <= r < prev.nrows && r < |perm| ==>
      perm[r] < samples.nrows && Row(SampledCenters(prev, samples, perm), r) == Row(samples, perm[r])
    ensures forall r :: |perm| <= r < prev.nrows ==> Row(SampledCenters(prev, samples, perm), r) == Row(prev, r)
    ensures forall r1, r2 :: 0 <= r1 < r2 < |perm| ==> perm[r1] != perm[r2]
  {
    ShuffleFacts(perm, samples.nrows);
    var m := SampledCenters(prev, samples, perm);
    forall r | 0 <= r < prev.nrows
      ensures r < |perm| ==> Row(m, r) == Row(samples, perm[r])
      ensures |perm| <= r ==> Row(m, r) == Row(prev, r)
    {
      forall c | 0 <= c < prev.ncols
        ensures r < |perm| ==> Row(m, r)[c] == Row(samples, perm[r])[c]
        ensures |perm| <= r ==> Row(m, r)[c] == Row(prev, r)[c]
      {
        SampledCentersAt(prev, samples, perm, r, c);
      }
    }
  }

  /** A centre sampled from a training sample has kernel value exp(0) at that sample. */
  lemma SampledCenterMatchesItsSample(prev: Matrix, samples: Matrix, perm: seq<nat>, beta: real, exp: real -> real, r: nat)
    requires prev.ncols == samples.ncols && IsShuffle(perm, samples.nrows)
    requires r < prev.nrows && r < |perm|
    ensures perm[r] < samples.nrows
    ensures At(Gradient(samples, SampledCenters(prev, samples, perm), beta, exp), perm[r], r) == exp(0.0)
  {
    ShuffleFacts(perm, samples.nrows);
    var m := SampledCenters(prev, samples, perm);
    forall c | 0 <= c < m.ncols
      ensures At(m, r, c) == At(samples, perm[r], c)
    {
      SampledCentersAt(prev, samples, perm, r, c);
    }
    GradientAt(samples, m, beta, exp, perm[r], r);
    RowSqDistFacts(m, r, samples, perm[r]);
  }

  /** The solver's answer for the normal equations of kernel matrix g and targets y. */
  function SolveNormal(solve: Solver, f: Factorization, g: Matrix, y: Matrix): Option<Matrix>
    requires g.nrows == y.nrows
  {
    solve(f, Product(Transpose(g), g), Product(Transpose(g), y))
  }

  lemma {:induction false} GramDotSymmetric(t: Matrix, g: Matrix, i: nat, j: nat, k: nat)
    requires t.nrows == g.ncols && t.ncols == g.nrows
    requires forall r: nat, c: nat :: r < t.nrows && c < t.ncols ==> At(t, r, c) == At(g, c, r)
    requires i < g.ncols && j < g.ncols && k <= g.nrows
    ensures DotPrefix(t, g, i, j, k) == DotPrefix(t, g, j, i, k)
  {
    if k > 0 {
      GramDotSymmetric(t, g, i, j, k - 1);
      assert At(t, i, k - 1) == At(g, k - 1, i);
      assert At(t, j, k - 1) == At(g, k - 1, j);
    }
  }

  /** The normal matrix GᵀG handed to the solver is symmetric. */
  lemma NormalMatrixSymmetric(g: Matrix)
    ensures Transpose(Product(Transpose(g), g)) == Product(Transpose(g), g)
  {
    var t := Transpose(g);
    var p := Product(t, g);
    forall r: nat, c: nat | r < t.nrows && c < t.ncols
      ensures At(t, r, c) == At(g, c, r)
    {
      TransposeAt(g, r, c);
    }
    forall i: nat, j: nat | i < p.ncols && j < p.nrows
      ensures At(Transpose(p), i, j) == At(p, i, j)
    {
      TransposeAt(p, i, j);
      ProductAt(t, g, i, j);
      ProductAt(t, g, j, i);
      GramDotSymmetric(t, g, i, j, g.nrows);
    }
    Ext(Transpose(p), p);
  }

  /** The model: centres (a numCenter by numCols buffer, column-major, updated in place by
      `fit`), the kernel width beta, the weights and the configured factorisation. The Rust
      struct keeps the centres as a `DMatrix`; `numCols` stands for that matrix's column
      count, which `new` takes as its `num_cols` argument. */
  class RBFRegression {
    var numCenter: nat
    var numCols: nat
    var centers: array<real>
    var beta: real
    var weight: Matrix
    var factorization: Option<Factorization>

    predicate Valid()
      reads this
    {
      && centers.Length == numCenter * numCols
      && weight.nrows == numCenter
    }

    /** The centre buffer read as a matrix. */
    function Centers(): (m: Matrix)
      reads this, centers
      requires Valid()
      ensures m.nrows == numCenter && m.ncols == numCols
    {
      Dense(numCenter, numCols, centers[..])
    }

    /** `RBFRegression::new`: every centre coordinate and every weight is 1. */
    constructor (beta: real, numCenter: nat, numCols: nat, factorization: Option<Factorization>)
      ensures Valid() && fresh(centers)
      ensures this.beta == beta && this.numCenter == numCenter && this.numCols == numCols
      ensures this.factorization == factorization
      ensures Centers() == Filled(numCenter, numCols, 1.0)
      ensures weight == Filled(numCenter, 1, 1.0)
    {
      var coefficientsCenters: seq<real> := [];
      var coefficientsWeight: seq<real> := [];
      for i := 0 to numCenter
        invariant |coefficientsWeight| == i && |coefficientsCenters| == i * numCols
        invariant forall k :: 0 <= k < |coefficientsWeight| ==> coefficientsWeight[k] == 1.0
        invariant forall k :: 0 <= k < |coefficientsCenters| ==> coefficientsCenters[k] == 1.0
      {
        coefficientsWeight := coefficientsWeight + [1.0];
        for j := 0 to numCols
          invariant |coefficientsCenters| == i * numCols + j
          invariant forall k :: 0 <= k < |coefficientsCenters| ==> coefficientsCenters[k] == 1.0
        {
          coefficientsCenters := coefficientsCenters + [1.0];
        }
      }
      this.numCenter := numCenter;
      this.numCols := numCols;
      this.beta := beta;
      this.factorization := factorization;
      centers := new real[|coefficientsCenters|](k => if 0 <= k < |coefficientsCenters| then coefficientsCenters[k] else 0.0);
      assert coefficientsCenters == Filled(numCenter, numCols, 1.0).data;
      assert coefficientsWeight == Filled(numCenter, 1, 1.0).data;
      weight := Dense(numCenter, 1, coefficientsWeight);
      new;
      assert centers[..] == coefficientsCenters;
    }

    /** Whether `fit` on (x, y) panics before it reaches the solver: the polynomial expansion
        fails, there is a sample but no centre, or y's row count is not x's. */
    predicate FitRejects(x: Matrix, y: Matrix)
      reads this
    {
      || (0 < x.nrows && (x.ncols == 0 || numCols == 0 || numCenter == 0))
      || y.nrows != x.nrows
    }

    /** The sampling loop of `fit`: copies expanded sample perm[count] into centre count,
        stopping once every centre is set; panics when there is a sample to copy (with at
        least one coordinate) but no centre to hold it. */
    method SampleCenters(samples: Matrix, perm: seq<nat>) returns (res: Result<()>)
      requires Valid() && samples.ncols == numCols && IsShuffle(perm, samples.nrows)
      modifies centers
      ensures res.Panic? <==> 0 < samples.nrows && 0 < numCols && numCenter == 0
      ensures res.Ok? ==> Centers() == SampledCenters(old(Centers()), samples, perm)
    {
      ghost var before := Centers();
      var n := samples.nrows;
      ShuffleFacts(perm, n);
      OffsetsInRange(numCenter, numCols);
      OffsetsDistinct(numCenter);
      var count: nat := 0;
      while count < n
        invariant count <= n && (count == 0 || count < numCenter)
        invariant forall r: nat, c: nat :: r < numCenter && c < numCols ==>
          centers[Offset(numCenter, r, c)] == if r < count then At(samples, perm[r], c) else At(before, r, c)
      {
        var i := perm[count];
        for j := 0 to numCols
          invariant 0 < j ==> count < numCenter
          invariant forall r: nat, c: nat :: r < numCenter && c < numCols ==>
            centers[Offset(numCenter, r, c)] ==
              if r < count || (r == count && c < j) then At(samples, perm[r], c) else At(before, r, c)
        {
          if count >= numCenter {
            return Panic(IndexOutOfBounds);
          }
          centers[Offset(numCenter, count, j)] := At(samples, i, j);
        }
        count := count + 1;
        if count >= numCenter {
          break;
        }
      }
      forall r: nat, c: nat | r < numCenter && c < numCols
        ensures centers[..][Offset(numCenter, r, c)] == At(SampledCenters(before, samples, perm), r, c)
      {
        SampledCentersAt(before, samples, perm, r, c);
      }
      FromEntries(centers[..], SampledCenters(before, samples, perm));
      return Ok(());
    }

    /** `fit`, with the shuffled index order `perm` supplied by the caller. */
    method Fit(x: Matrix, y: Matrix, perm: seq<nat>, exp: real -> real, solve: Solver) returns (res: Result<()>)
      requires Valid() && IsShuffle(perm, x.nrows) && SolvesToShape(solve)
      modifies this, centers
      ensures Valid() && centers == old(centers)
      ensures numCenter == old(numCenter) && numCols == old(numCols)
      ensures beta == old(beta) && factorization == old(factorization)
      ensures FitRejects(x, y) ==> res.Panic?
      ensures !FitRejects(x, y) ==> Centers() == SampledCenters(old(Centers()), Expand(x, numCols), perm)
      ensures !FitRejects(x, y) ==>
        var fitted := SolveNormal(solve, Effective(factorization), Gradient(Expand(x, numCols), Centers(), beta, exp), y);
        && (res.Ok? <==> fitted.Some?)
        && (res.Ok? ==> weight == fitted.value)
    {
      var samples :- ExpandMatrix(x, numCols);
      var sampled :- SampleCenters(samples, perm);
      var gradient := CalculateGradient(samples, Centers(), beta, exp);
      var lhs := MatMul(Transpose(gradient.value), gradient.value);
      var rhs :- MatMul(Transpose(gradient.value), y);
      var solved := solve(Effective(factorization), lhs.value, rhs);
      if solved.None? {
        return Panic(UnwrapFailed);
      }
      weight := solved.value;
      return Ok(());
    }

    /** `predict`: the kernel matrix of the expanded samples against the centres, times the
        weights; panics only when the expansion fails, since the weights always have one row
        per centre. */
    method Predict(x: Matrix, exp: real -> real) returns (res: Result<Matrix>)
      requires Valid()
      ensures res.Panic? <==> 0 < x.nrows && (x.ncols == 0 || numCols == 0)
      ensures res.Ok? ==> res.value == Product(Gradient(Expand(x, numCols), Centers(), beta, exp), weight)
    {
      var samples :- ExpandMatrix(x, numCols);
      var gradient := CalculateGradient(samples, Centers(), beta, exp);
      res := MatMul(gradient.value, weight);
    }
  }
}
