/**
 * The numeric stages of the ranking (main.py): `normalise` makes every column sum
 * to 1, `prepare_data` damps the matrix towards the uniform one, and `rank`
 * squares it a fixed number of times.
 */
module Ranking {
  import opened Wrappers
  import opened Sums
  import opened Matrices

  /** Why a stage fails: its shape assertion, or the division by the size of an empty matrix. */
  datatype MatrixError = NotSquare | ZeroDivision

  /** `normalise`: every entry divided by the sum of its column. */
  function Normalise(m: Matrix): (r: Matrix)
    requires IsRectangular(m)
    requires forall j :: 0 <= j < Width(m) ==> ColumnSum(m, j) != 0.0
    ensures |r| == |m| && IsRectangular(r) && Width(r) == Width(m)
  {
    seq(|m|, i requires 0 <= i < |m| =>
      seq(Width(m), j requires 0 <= j < Width(m) => m[i][j] / ColumnSum(m, j)))
  }

  /** Normalising is undone by multiplying every column by its original sum. */
  lemma NormaliseRescales(m: Matrix)
    requires IsRectangular(m)
    requires forall j :: 0 <= j < Width(m) ==> ColumnSum(m, j) != 0.0
    ensures forall i, j :: 0 <= i < |m| && 0 <= j < Width(m) ==>
              Normalise(m)[i][j] * ColumnSum(m, j) == m[i][j]
  {
    var r := Normalise(m);
    forall i, j | 0 <= i < |m| && 0 <= j < Width(m)
      ensures r[i][j] * ColumnSum(m, j) == m[i][j]
    {
      var s := ColumnSum(m, j);
      assert r[i][j] == m[i][j] / s;
    }
  }

  /** Every column of a normalised matrix sums to 1. */
  lemma NormaliseColumnStochastic(m: Matrix)
    requires IsRectangular(m)
    requires forall j :: 0 <= j < Width(m) ==> ColumnSum(m, j) != 0.0
    ensures IsColumnStochastic(Normalise(m))
  {
    var r := Normalise(m);
    forall j | 0 <= j < Width(r)
      ensures ColumnSum(r, j) == 1.0
    {
      var s := ColumnSum(m, j);
      forall k: nat | k < |m|
        ensures ColumnOf(r, j)(k) == (1.0 / s) * ColumnOf(m, j)(k)
      {
        assert ColumnOf(r, j)(k) == m[k][j] / s;
      }
      SumScale(|m|, 1.0 / s, ColumnOf(m, j), ColumnOf(r, j));
    }
  }

  /** A matrix whose columns already sum to 1 is left as it is. */
  lemma NormaliseFixesStochastic(m: Matrix)
    requires IsColumnStochastic(m)
    ensures Normalise(m) == m
  {
    var r := Normalise(m);
    forall i | 0 <= i < |m|
      ensures r[i] == m[i]
    {
      forall j | 0 <= j < Width(m)
        ensures r[i][j] == m[i][j]
      {
        assert ColumnSum(m, j) == 1.0;
      }
    }
  }

  /** Normalising twice is normalising once. */
  lemma NormaliseIdempotent(m: Matrix)
    requires IsRectangular(m)
    requires forall j :: 0 <= j < Width(m) ==> ColumnSum(m, j) != 0.0
    ensures var r := Normalise(m);
            && (forall j :: 0 <= j < Width(r) ==> ColumnSum(r, j) != 0.0)
            && Normalise(r) == r
  {
    NormaliseColumnStochastic(m);
    NormaliseFixesStochastic(Normalise(m));
  }

  /** A non-negative share of a total it does not exceed lies between 0 and 1. */
  lemma ShareBounds(x: real, s: real)
    requires 0.0 <= x <= s && s != 0.0
    ensures 0.0 <= x / s <= 1.0
  {
  }

  /** Normalising a non-negative matrix gives entries between 0 and 1. */
  lemma NormaliseBounds(m: Matrix)
    requires IsRectangular(m) && IsNonNegative(m)
    requires forall j :: 0 <= j < Width(m) ==> ColumnSum(m, j) != 0.0
    ensures forall i, j :: 0 <= i < |m| && 0 <= j < Width(m) ==> 0.0 <= Normalise(m)[i][j] <= 1.0
  {
    var r := Normalise(m);
    forall i, j | 0 <= i < |m| && 0 <= j < Width(m)
      ensures 0.0 <= r[i][j] <= 1.0
    {
      forall k: nat | k < |m|
        ensures ColumnOf(m, j)(k) >= 0.0
      {
        assert ColumnOf(m, j)(k) == m[k][j];
      }
      SumBoundsTerm(|m|, i, ColumnOf(m, j));
      assert ColumnOf(m, j)(i) == m[i][j];
      ShareBounds(m[i][j], ColumnSum(m, j));
    }
  }

  /** The damped matrix: `proportion * m` plus `(1 - proportion) / N` in every entry. */
  function Damp(m: Matrix, proportion: real): (r: Matrix)
    requires IsSquare(m) && |m| > 0
    ensures IsSquare(r) && |r| == |m|
  {
    var n := |m|;
    seq(n, i requires 0 <= i < n =>
      seq(n, j requires 0 <= j < n => proportion * m[i][j] + Share(n, proportion)))
  }

  /** The uniform part of every damped entry, `(1 - proportion) * (1 / N)`. */
  function Share(n: nat, proportion: real): real
    requires n > 0
  {
    (1.0 - proportion) * (1.0 / n as real)
  }

  /**
   * `prepare_data`: the shape assertion, then the damping, whose `1 / N` fails
   * for an empty matrix.
   */
  function PrepareData(m: Matrix, proportion: real): (r: Result<Matrix, MatrixError>)
    requires IsRectangular(m)
    ensures r.Success? <==> IsSquare(m) && |m| > 0
    ensures r.Success? ==> r.value == Damp(m, proportion)
    ensures !IsSquare(m) ==> r == Failure(NotSquare)
    ensures r.Failure? && IsSquare(m) ==> r.error == ZeroDivision
  {
    if Width(m) != |m| then Failure(NotSquare)
    else if |m| == 0 then Failure(ZeroDivision)
    else Success(Damp(m, proportion))
  }

  /** With `proportion = 1` the matrix is kept as it is. */
  lemma DampKeeps(m: Matrix)
    requires IsSquare(m) && |m| > 0
    ensures Damp(m, 1.0) == m
  {
    var r := Damp(m, 1.0);
    assert Share(|m|, 1.0) == 0.0;
    forall i | 0 <= i < |m|
      ensures r[i] == m[i]
    {
    }
  }

  /** With `proportion = 0` every entry is `1 / N`. */
  lemma DampUniform(m: Matrix)
    requires IsSquare(m) && |m| > 0
    ensures forall i, j :: 0 <= i < |m| && 0 <= j < |m| ==> Damp(m, 0.0)[i][j] == 1.0 / |m| as real
  {
    assert Share(|m|, 0.0) == 1.0 / |m| as real;
  }

  /** Entry `(k, j)` of the damped matrix: the scaled entry plus the uniform share. */
  lemma DampEntry(m: Matrix, proportion: real, j: nat, k: nat)
    requires IsSquare(m) && |m| > 0
    requires j < |m| && k < |m|
    ensures ColumnOf(Damp(m, proportion), j)(k)
            == proportion * ColumnOf(m, j)(k) + Share(|m|, proportion)
  {
  }

  /** Column `j` of the damped matrix sums to `proportion` times the original sum, plus `N` shares. */
  lemma DampColumnShares(m: Matrix, proportion: real, j: nat)
    requires IsSquare(m) && |m| > 0 && j < |m|
    ensures ColumnSum(Damp(m, proportion), j) == proportion * ColumnSum(m, j) + |m| as real * Share(|m|, proportion)
  {
    var u := Share(|m|, proportion);
    forall k: nat | k < |m|
      ensures ColumnOf(Damp(m, proportion), j)(k) == proportion * ColumnOf(m, j)(k) + u
    {
      DampEntry(m, proportion, j, k);
    }
    SumAffine(|m|, proportion, u, ColumnOf(m, j), ColumnOf(Damp(m, proportion), j));
  }

  /** Column `j` of the damped matrix sums to `proportion` times the original sum, plus `1 - proportion`. */
  lemma DampColumnSum(m: Matrix, proportion: real, j: nat)
    requires IsSquare(m) && |m| > 0 && j < |m|
    ensures ColumnSum(Damp(m, proportion), j) == proportion * ColumnSum(m, j) + (1.0 - proportion)
  {
    DampColumnShares(m, proportion, j);
    UniformShare(|m|, proportion);
  }

  /** `n` uniform shares `(1 - proportion) / n` add up to `1 - proportion`. */
  lemma UniformShare(n: nat, proportion: real)
    requires n > 0
    ensures n as real * Share(n, proportion) == 1.0 - proportion
  {
    var x := n as real;
    assert x * (1.0 / x) == 1.0;
    assert x * ((1.0 - proportion) * (1.0 / x)) == (1.0 - proportion) * (x * (1.0 / x));
  }

  /** Damping keeps a column-stochastic matrix column-stochastic, whatever the proportion. */
  lemma DampColumnStochastic(m: Matrix, proportion: real)
    requires IsSquare(m) && |m| > 0
    requires IsColumnStochastic(m)
    ensures IsColumnStochastic(Damp(m, proportion))
  {
    var r := Damp(m, proportion);
    assert |r[0]| == |m|;
    forall j | 0 <= j < Width(r)
      ensures ColumnSum(r, j) == 1.0
    {
      assert Width(m) == |m|;
      DampColumnSum(m, proportion, j);
      StochasticShare(proportion, ColumnSum(m, j));
    }
  }

  /** A proportion of a unit sum, plus the rest of the unit, is the unit. */
  lemma StochasticShare(proportion: real, s: real)
    requires s == 1.0
    ensures proportion * s + (1.0 - proportion) == 1.0
  {
  }

  /** Damping a non-negative matrix with a proportion in [0, 1) makes every entry positive. */
  lemma DampPositive(m: Matrix, proportion: real)
    requires IsSquare(m) && |m| > 0 && IsNonNegative(m)
    requires 0.0 <= proportion < 1.0
    ensures forall i, j :: 0 <= i < |m| && 0 <= j < |m| ==> Damp(m, proportion)[i][j] > 0.0
  {
    var r := Damp(m, proportion);
    var u := Share(|m|, proportion);
    PositiveShare(|m|, proportion);
    forall i, j | 0 <= i < |m| && 0 <= j < |m|
      ensures r[i][j] > 0.0
    {
      NonNegativeProduct(proportion, m[i][j]);
      assert r[i][j] == proportion * m[i][j] + u;
    }
  }

  /** A product of non-negative numbers is non-negative. */
  lemma NonNegativeProduct(x: real, y: real)
    requires x >= 0.0 && y >= 0.0
    ensures x * y >= 0.0
  {
  }

  /** The uniform share `(1 - proportion) / n` is positive when `proportion < 1`. */
  lemma PositiveShare(n: nat, proportion: real)
    requires n > 0 && proportion < 1.0
    ensures Share(n, proportion) > 0.0
  {
  }

  /** The number of passes `for i in range(epochs)` makes: none for a negative count. */
  function Iterations(epochs: int): nat
  {
    if epochs < 0 then 0 else epochs
  }

  /** `m` after `k` passes of `m := m m`. */
  function Squarings(m: Matrix, k: nat): (r: Matrix)
    requires IsSquare(m)
    ensures IsSquare(r) && |r| == |m|
  {
    if k == 0 then m
    else
      var s := Squarings(m, k - 1);
      Mul(s, s)
  }

  /** `2` to the power `k`. */
  function Pow2(k: nat): (r: nat)
    ensures r >= 1
  {
    if k == 0 then 1 else 2 * Pow2(k - 1)
  }

  /**
   * `rank`: the shape assertion, then `epochs` passes of `data := data . data`;
   * no pass at all when `epochs <= 0`.
   */
  method Rank(data: Matrix, epochs: int) returns (r: Result<Matrix, MatrixError>)
    requires IsRectangular(data)
    ensures r.Success? <==> IsSquare(data)
    ensures r.Failure? ==> r.error == NotSquare
    ensures r.Success? ==> r.value == Squarings(data, Iterations(epochs))
    ensures r.Success? && epochs <= 0 ==> r.value == data
  {
    if Width(data) != |data| {
      return Failure(NotSquare);
    }
    var m := data;
    for i := 0 to Iterations(epochs)
      invariant IsSquare(m) && |m| == |data|
      invariant m == Squarings(data, i)
    {
      m := Mul(m, m);
    }
    return Success(m);
  }

  /** `k` squarings raise the matrix to the power `2^k`. */
  lemma {:induction false} SquaringsPow(m: Matrix, k: nat)
    requires IsSquare(m)
    ensures Squarings(m, k) == Pow(m, Pow2(k))
  {
    if k > 0 {
      SquaringsPow(m, k - 1);
      PowAdd(m, Pow2(k - 1), Pow2(k - 1));
    }
  }

  /** Squaring keeps a column-stochastic matrix column-stochastic. */
  lemma {:induction false} SquaringsColumnStochastic(m: Matrix, k: nat)
    requires IsSquare(m) && IsColumnStochastic(m)
    ensures IsColumnStochastic(Squarings(m, k))
  {
    if k > 0 {
      SquaringsColumnStochastic(m, k - 1);
      var s := Squarings(m, k - 1);
      MulColumnStochastic(s, s);
    }
  }

  /** Squaring keeps a non-negative matrix non-negative, any number of times. */
  lemma {:induction false} SquaringsNonNegative(m: Matrix, k: nat)
    requires IsSquare(m) && IsNonNegative(m)
    ensures IsNonNegative(Squarings(m, k))
  {
    if k > 0 {
      SquaringsNonNegative(m, k - 1);
      var s := Squarings(m, k - 1);
      MulNonNegative(s, s);
    }
  }
}
