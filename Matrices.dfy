/**
 * Dense real matrices as sequences of rows, with the column sums and the matrix
 * product the ranking pipeline is built from (NumPy's `sum(axis=0)` and `dot`).
 */
module Matrices {
  import opened Sums

  /** A matrix in row-major order: `m[i][j]` is row `i`, column `j`. */
  type Matrix = seq<seq<real>>

  /** The number of columns, read off the first row as NumPy's `shape[1]`; an empty matrix has none. */
  function Width(m: Matrix): nat
  {
    if |m| == 0 then 0 else |m[0]|
  }

  /** Every row has the same length, as in a two-dimensional array. */
  predicate IsRectangular(m: Matrix)
  {
    forall i :: 0 <= i < |m| ==> |m[i]| == Width(m)
  }

  /** An N x N matrix: every row is as long as there are rows. */
  predicate IsSquare(m: Matrix)
  {
    forall i :: 0 <= i < |m| ==> |m[i]| == |m|
  }

  /** Entry `(i, j)`, and 0 outside the matrix, so that sums over indices need no guards. */
  function Get(m: Matrix, i: nat, j: nat): real
  {
    if i < |m| && j < |m[i]| then m[i][j] else 0.0
  }

  /** The entries of column `j`, indexed by row. */
  function ColumnOf(m: Matrix, j: nat): nat -> real
  {
    (k: nat) => Get(m, k, j)
  }

  /** The sum of column `j`. */
  function ColumnSum(m: Matrix, j: nat): real
  {
    Sum(|m|, ColumnOf(m, j))
  }

  /** Every column sums to 1. */
  predicate IsColumnStochastic(m: Matrix)
  {
    IsRectangular(m) && forall j :: 0 <= j < Width(m) ==> ColumnSum(m, j) == 1.0
  }

  /** Every entry is non-negative. */
  predicate IsNonNegative(m: Matrix)
  {
    forall i, j :: 0 <= i < |m| && 0 <= j < |m[i]| ==> m[i][j] >= 0.0
  }

  /** Term `k` of entry `(i, j)` of the product `a b`. */
  function ProductTerm(a: Matrix, b: Matrix, i: nat, j: nat, k: nat): real
  {
    Get(a, i, k) * Get(b, k, j)
  }

  /** The terms of entry `(i, j)` of the product `a b`, indexed by `k`. */
  function ProductTerms(a: Matrix, b: Matrix, i: nat, j: nat): nat -> real
  {
    (k: nat) => ProductTerm(a, b, i, j, k)
  }

  /** The product of two N x N matrices; it is N x N again. */
  function Mul(a: Matrix, b: Matrix): (c: Matrix)
    requires IsSquare(a) && IsSquare(b) && |a| == |b|
    ensures IsSquare(c) && |c| == |a|
  {
    var n := |a|;
    seq(n, i requires 0 <= i < n =>
      seq(n, j requires 0 <= j < n => Sum(n, ProductTerms(a, b, i, j))))
  }

  /** Entry `(i, j)` of a product, as a sum over the shared index. */
  lemma MulEntry(a: Matrix, b: Matrix, i: nat, j: nat)
    requires IsSquare(a) && IsSquare(b) && |a| == |b|
    requires i < |a| && j < |a|
    ensures Get(Mul(a, b), i, j) == Sum(|a|, ProductTerms(a, b, i, j))
  {
  }

  /** The terms `a[i][l] b[l][k] c[k][j]` of entry `(i, j)` of a triple product, indexed by `(k, l)`. */
  function Triple(a: Matrix, b: Matrix, c: Matrix, i: nat, j: nat): (nat, nat) -> real
  {
    (k: nat, l: nat) => TripleTerm(a, b, c, i, j, k, l)
  }

  /** The term `(a[i][l] b[l][k]) c[k][j]`. */
  function TripleTerm(a: Matrix, b: Matrix, c: Matrix, i: nat, j: nat, k: nat, l: nat): real
  {
    ProductTerm(a, b, i, k, l) * Get(c, k, j)
  }

  /** Equal factors give equal products (spelled out for the solver's non-linear arithmetic). */
  lemma EqualTimes(x: real, y: real, z: real)
    requires x == y
    ensures x * z == y * z
  {
  }

  /** Equal factors give equal products, on the right. */
  lemma TimesEqual(x: real, y: real, z: real)
    requires y == z
    ensures x * y == x * z
  {
  }

  /** A triple term grouped as `a[i][l] (b[l][k] c[k][j])`. */
  lemma TripleTermRight(a: Matrix, b: Matrix, c: Matrix, i: nat, j: nat, k: nat, l: nat)
    ensures TripleTerm(a, b, c, i, j, k, l) == Get(a, i, l) * ProductTerm(b, c, l, j, k)
  {
    var x, y, z := Get(a, i, l), Get(b, l, k), Get(c, k, j);
    EqualTimes(ProductTerm(a, b, i, k, l), x * y, z);
    assert x * y * z == x * (y * z);
    TimesEqual(x, y * z, ProductTerm(b, c, l, j, k));
  }

  /** A product term whose left factor is known to be `s`. */
  lemma ProductTermLeft(p: Matrix, c: Matrix, i: nat, j: nat, k: nat, s: real)
    requires Get(p, i, k) == s
    ensures ProductTerm(p, c, i, j, k) == s * Get(c, k, j)
  {
  }

  /** A product term whose right factor is known to be `s`. */
  lemma ProductTermRight(a: Matrix, q: Matrix, i: nat, j: nat, l: nat, s: real)
    requires Get(q, l, j) == s
    ensures ProductTerm(a, q, i, j, l) == Get(a, i, l) * s
  {
  }

  /** Term `(k, l)` of row `k` of the triple terms, grouped as `(a[i][l] b[l][k]) c[k][j]`. */
  lemma TripleRowTerm(a: Matrix, b: Matrix, c: Matrix, i: nat, j: nat, k: nat, l: nat)
    ensures Row(Triple(a, b, c, i, j), k)(l) == ProductTerms(a, b, i, k)(l) * Get(c, k, j)
  {
    var t := Triple(a, b, c, i, j);
    assert Row(t, k)(l) == TripleTerm(a, b, c, i, j, k, l);
    assert ProductTerms(a, b, i, k)(l) == ProductTerm(a, b, i, k, l);
  }

  /** Term `(k, l)` of column `l` of the triple terms, grouped as `a[i][l] (b[l][k] c[k][j])`. */
  lemma TripleColumnTerm(a: Matrix, b: Matrix, c: Matrix, i: nat, j: nat, k: nat, l: nat)
    ensures Column(Triple(a, b, c, i, j), l)(k) == Get(a, i, l) * ProductTerms(b, c, l, j)(k)
  {
    var t := Triple(a, b, c, i, j);
    assert Column(t, l)(k) == TripleTerm(a, b, c, i, j, k, l);
    assert ProductTerms(b, c, l, j)(k) == ProductTerm(b, c, l, j, k);
    TripleTermRight(a, b, c, i, j, k, l);
  }

  /** Multiplication distributes over addition, on the right. */
  lemma DistributeRight(x: real, y: real, z: real)
    ensures x * z + y * z == (x + y) * z
  {
  }

  /** Multiplication distributes over addition, on the left. */
  lemma DistributeLeft(x: real, y: real, z: real)
    ensures x * y + x * z == x * (y + z)
  {
  }

  /** The factor `c[k][j]` distributes over the first `n` terms of entry `(i, k)` of `a b`. */
  lemma {:induction false} MulAssocLeftSpread(a: Matrix, b: Matrix, c: Matrix, i: nat, j: nat, k: nat, n: nat)
    ensures Sum(n, Row(Triple(a, b, c, i, j), k)) == Sum(n, ProductTerms(a, b, i, k)) * Get(c, k, j)
  {
    if n > 0 {
      MulAssocLeftSpread(a, b, c, i, j, k, n - 1);
      TripleRowTerm(a, b, c, i, j, k, n - 1);
      DistributeRight(Sum(n - 1, ProductTerms(a, b, i, k)), ProductTerms(a, b, i, k)(n - 1), Get(c, k, j));
    }
  }

  /** The factor `a[i][l]` distributes over the first `n` terms of entry `(l, j)` of `b c`. */
  lemma {:induction false} MulAssocRightSpread(a: Matrix, b: Matrix, c: Matrix, i: nat, j: nat, l: nat, n: nat)
    ensures Sum(n, Column(Triple(a, b, c, i, j), l)) == Get(a, i, l) * Sum(n, ProductTerms(b, c, l, j))
  {
    if n > 0 {
      MulAssocRightSpread(a, b, c, i, j, l, n - 1);
      TripleColumnTerm(a, b, c, i, j, n - 1, l);
      DistributeLeft(Get(a, i, l), Sum(n - 1, ProductTerms(b, c, l, j)), ProductTerms(b, c, l, j)(n - 1));
    }
  }

  /** Term `k` of entry `(i, j)` of `(a b) c` is the sum of row `k` of the triple terms. */
  lemma MulAssocLeftTerm(a: Matrix, b: Matrix, c: Matrix, i: nat, j: nat, k: nat)
    requires IsSquare(a) && IsSquare(b) && IsSquare(c) && |a| == |b| == |c|
    requires i < |a| && k < |a|
    ensures ProductTerms(Mul(a, b), c, i, j)(k) == RowSums(|a|, Triple(a, b, c, i, j))(k)
  {
    var ab := Mul(a, b);
    var s := Sum(|a|, ProductTerms(a, b, i, k));
    MulEntry(a, b, i, k);
    ProductTermLeft(ab, c, i, j, k, s);
    MulAssocLeftSpread(a, b, c, i, j, k, |a|);
    assert ProductTerms(ab, c, i, j)(k) == ProductTerm(ab, c, i, j, k);
    assert RowSums(|a|, Triple(a, b, c, i, j))(k) == Sum(|a|, Row(Triple(a, b, c, i, j), k));
  }

  /** Term `l` of entry `(i, j)` of `a (b c)` is the sum of column `l` of the triple terms. */
  lemma MulAssocRightTerm(a: Matrix, b: Matrix, c: Matrix, i: nat, j: nat, l: nat)
    requires IsSquare(a) && IsSquare(b) && IsSquare(c) && |a| == |b| == |c|
    requires j < |a| && l < |a|
    ensures ProductTerms(a, Mul(b, c), i, j)(l) == ColumnSums(|a|, Triple(a, b, c, i, j))(l)
  {
    var bc := Mul(b, c);
    var s := Sum(|a|, ProductTerms(b, c, l, j));
    MulEntry(b, c, l, j);
    ProductTermRight(a, bc, i, j, l, s);
    MulAssocRightSpread(a, b, c, i, j, l, |a|);
    assert ProductTerms(a, bc, i, j)(l) == ProductTerm(a, bc, i, j, l);
    assert ColumnSums(|a|, Triple(a, b, c, i, j))(l) == Sum(|a|, Column(Triple(a, b, c, i, j), l));
  }

  /** Entry `(i, j)` of `(a b) c` as a double sum, `k` outside. */
  lemma MulAssocLeft(a: Matrix, b: Matrix, c: Matrix, i: nat, j: nat)
    requires IsSquare(a) && IsSquare(b) && IsSquare(c) && |a| == |b| == |c|
    requires i < |a| && j < |a|
    ensures Get(Mul(Mul(a, b), c), i, j) == Sum(|a|, RowSums(|a|, Triple(a, b, c, i, j)))
  {
    forall k: nat | k < |a|
      ensures ProductTerms(Mul(a, b), c, i, j)(k) == RowSums(|a|, Triple(a, b, c, i, j))(k)
    {
      MulAssocLeftTerm(a, b, c, i, j, k);
    }
    MulEntry(Mul(a, b), c, i, j);
    SumExt(|a|, ProductTerms(Mul(a, b), c, i, j), RowSums(|a|, Triple(a, b, c, i, j)));
  }

  /** Entry `(i, j)` of `a (b c)` as a double sum, `l` outside. */
  lemma MulAssocRight(a: Matrix, b: Matrix, c: Matrix, i: nat, j: nat)
    requires IsSquare(a) && IsSquare(b) && IsSquare(c) && |a| == |b| == |c|
    requires i < |a| && j < |a|
    ensures Get(Mul(a, Mul(b, c)), i, j) == Sum(|a|, ColumnSums(|a|, Triple(a, b, c, i, j)))
  {
    forall l: nat | l < |a|
      ensures ProductTerms(a, Mul(b, c), i, j)(l) == ColumnSums(|a|, Triple(a, b, c, i, j))(l)
    {
      MulAssocRightTerm(a, b, c, i, j, l);
    }
    MulEntry(a, Mul(b, c), i, j);
    SumExt(|a|, ProductTerms(a, Mul(b, c), i, j), ColumnSums(|a|, Triple(a, b, c, i, j)));
  }

  /** The matrix product is associative. */
  lemma MulAssoc(a: Matrix, b: Matrix, c: Matrix)
    requires IsSquare(a) && IsSquare(b) && IsSquare(c) && |a| == |b| == |c|
    ensures Mul(Mul(a, b), c) == Mul(a, Mul(b, c))
  {
    var l := Mul(Mul(a, b), c);
    var r := Mul(a, Mul(b, c));
    forall i, j | 0 <= i < |a| && 0 <= j < |a|
      ensures l[i][j] == r[i][j]
    {
      MulAssocLeft(a, b, c, i, j);
      MulAssocRight(a, b, c, i, j);
      SumSwap(|a|, |a|, Triple(a, b, c, i, j));
    }
    assert forall i :: 0 <= i < |a| ==> l[i] == r[i];
  }

  /** The terms `a[i][k] b[k][j]` of column `j` of `a b`, indexed by `(i, k)`. */
  function Products(a: Matrix, b: Matrix, j: nat): (nat, nat) -> real
  {
    (i: nat, k: nat) => ProductTerm(a, b, i, j, k)
  }

  /** A term of a product of non-negative matrices is non-negative. */
  lemma ProductTermNonNegative(a: Matrix, b: Matrix, i: nat, j: nat, k: nat)
    requires IsNonNegative(a) && IsNonNegative(b)
    ensures ProductTerm(a, b, i, j, k) >= 0.0
  {
    var x, y := Get(a, i, k), Get(b, k, j);
    assert x >= 0.0 && y >= 0.0;
    assert x * y >= 0.0;
  }

  /** The product of two non-negative matrices is non-negative. */
  lemma MulNonNegative(a: Matrix, b: Matrix)
    requires IsSquare(a) && IsSquare(b) && |a| == |b|
    requires IsNonNegative(a) && IsNonNegative(b)
    ensures IsNonNegative(Mul(a, b))
  {
    var p := Mul(a, b);
    forall i, j | 0 <= i < |p| && 0 <= j < |p[i]|
      ensures p[i][j] >= 0.0
    {
      forall k: nat | k < |a|
        ensures ProductTerms(a, b, i, j)(k) >= 0.0
      {
        ProductTermNonNegative(a, b, i, j, k);
      }
      SumNonNegative(|a|, ProductTerms(a, b, i, j));
      MulEntry(a, b, i, j);
    }
  }

  /** The product of two column-stochastic matrices is column-stochastic. */
  lemma MulColumnStochastic(a: Matrix, b: Matrix)
    requires IsSquare(a) && IsSquare(b) && |a| == |b|
    requires IsColumnStochastic(a) && IsColumnStochastic(b)
    ensures IsColumnStochastic(Mul(a, b))
  {
    var n := |a|;
    var p := Mul(a, b);
    forall j | 0 <= j < Width(p)
      ensures ColumnSum(p, j) == 1.0
    {
      var f := Products(a, b, j);
      // Summing column j of the product row by row ...
      forall i: nat | i < n
        ensures ColumnOf(p, j)(i) == RowSums(n, f)(i)
      {
        MulEntry(a, b, i, j);
        SumExt(n, ProductTerms(a, b, i, j), Row(f, i));
      }
      SumExt(n, ColumnOf(p, j), RowSums(n, f));
      SumSwap(n, n, f);
      // ... is summing, for every k, column k of a scaled by b[k][j].
      forall k: nat | k < n
        ensures ColumnSums(n, f)(k) == ColumnOf(b, j)(k)
      {
        SumScaleRight(n, Get(b, k, j), ColumnOf(a, k), Column(f, k));
        assert ColumnSum(a, k) == 1.0;
      }
      SumExt(n, ColumnSums(n, f), ColumnOf(b, j));
      assert ColumnSum(b, j) == 1.0;
    }
  }

  /** `m` raised to the power `e >= 1`: `m` multiplied by itself `e - 1` times. */
  function Pow(m: Matrix, e: nat): (r: Matrix)
    requires IsSquare(m) && e >= 1
    ensures IsSquare(r) && |r| == |m|
  {
    if e == 1 then m else Mul(m, Pow(m, e - 1))
  }

  /** Powers add under the product: `m^(x + y) == m^x m^y`. */
  lemma {:induction false} PowAdd(m: Matrix, x: nat, y: nat)
    requires IsSquare(m) && x >= 1 && y >= 1
    ensures Pow(m, x + y) == Mul(Pow(m, x), Pow(m, y))
  {
    if x > 1 {
      PowAdd(m, x - 1, y);
      MulAssoc(m, Pow(m, x - 1), Pow(m, y));
    }
  }
}
