/** Finite sums `f(0) + ... + f(n - 1)` over exact reals, and the algebra the matrix proofs need. */
module Sums {

  /** The sum of `f(k)` for `0 <= k < n`. */
  function Sum(n: nat, f: nat -> real): real
  {
    if n == 0 then 0.0 else Sum(n - 1, f) + f(n - 1)
  }

  /** Two summands that agree below `n` have the same sum. */
  lemma {:induction false} SumExt(n: nat, f: nat -> real, g: nat -> real)
    requires forall k: nat :: k < n ==> f(k) == g(k)
    ensures Sum(n, f) == Sum(n, g)
  {
    if n > 0 {
      SumExt(n - 1, f, g);
    }
  }

  /** The sum of a pointwise sum is the sum of the sums. */
  lemma {:induction false} SumAdd(n: nat, f: nat -> real, g: nat -> real, h: nat -> real)
    requires forall k: nat :: k < n ==> h(k) == f(k) + g(k)
    ensures Sum(n, h) == Sum(n, f) + Sum(n, g)
  {
    if n > 0 {
      SumAdd(n - 1, f, g, h);
    }
  }

  /** A constant factor moves out of a sum. */
  lemma {:induction false} SumScale(n: nat, c: real, f: nat -> real, g: nat -> real)
    requires forall k: nat :: k < n ==> g(k) == c * f(k)
    ensures Sum(n, g) == c * Sum(n, f)
  {
    if n > 0 {
      SumScale(n - 1, c, f, g);
    }
  }

  /** A constant factor on the right moves out of a sum. */
  lemma {:induction false} SumScaleRight(n: nat, c: real, f: nat -> real, g: nat -> real)
    requires forall k: nat :: k < n ==> g(k) == f(k) * c
    ensures Sum(n, g) == Sum(n, f) * c
  {
    if n > 0 {
      SumScaleRight(n - 1, c, f, g);
    }
  }

  /** An affine image of the terms: the scaled sum plus `n` copies of the offset. */
  lemma {:induction false} SumAffine(n: nat, c: real, u: real, f: nat -> real, g: nat -> real)
    requires forall k: nat :: k < n ==> g(k) == c * f(k) + u
    ensures Sum(n, g) == c * Sum(n, f) + n as real * u
  {
    if n > 0 {
      SumAffine(n - 1, c, u, f, g);
      var before, x := Sum(n - 1, f), f(n - 1);
      assert c * before + c * x == c * (before + x);
      var k := (n - 1) as real;
      assert k * u + u == (k + 1.0) * u;
    }
  }

  /** A sum of zeros is zero. */
  lemma {:induction false} SumZero(n: nat, f: nat -> real)
    requires forall k: nat :: k < n ==> f(k) == 0.0
    ensures Sum(n, f) == 0.0
  {
    if n > 0 {
      SumZero(n - 1, f);
    }
  }

  /** A sum of non-negative terms is at least each of its terms. */
  lemma {:induction false} SumBoundsTerm(n: nat, i: nat, f: nat -> real)
    requires i < n
    requires forall k: nat :: k < n ==> f(k) >= 0.0
    ensures 0.0 <= f(i) <= Sum(n, f)
  {
    if n - 1 == i {
      SumNonNegative(n - 1, f);
    } else {
      SumBoundsTerm(n - 1, i, f);
    }
  }

  /** A sum of non-negative terms is non-negative. */
  lemma {:induction false} SumNonNegative(n: nat, f: nat -> real)
    requires forall k: nat :: k < n ==> f(k) >= 0.0
    ensures Sum(n, f) >= 0.0
  {
    if n > 0 {
      SumNonNegative(n - 1, f);
    }
  }

  /** Row `i` of a doubly indexed family of terms. */
  function Row(f: (nat, nat) -> real, i: nat): nat -> real
  {
    (j: nat) => f(i, j)
  }

  /** Column `j` of a doubly indexed family of terms. */
  function Column(f: (nat, nat) -> real, j: nat): nat -> real
  {
    (i: nat) => f(i, j)
  }

  /** The sums of the rows, each over `m` terms. */
  function RowSums(m: nat, f: (nat, nat) -> real): nat -> real
  {
    (i: nat) => Sum(m, Row(f, i))
  }

  /** The sums of the columns, each over `n` terms. */
  function ColumnSums(n: nat, f: (nat, nat) -> real): nat -> real
  {
    (j: nat) => Sum(n, Column(f, j))
  }

  /** A double sum may be taken in either order. */
  lemma {:induction false} SumSwap(n: nat, m: nat, f: (nat, nat) -> real)
    ensures Sum(n, RowSums(m, f)) == Sum(m, ColumnSums(n, f))
  {
    if n > 0 {
      SumSwap(n - 1, m, f);
      // Peel row n - 1 off every column sum.
      SumAdd(m, ColumnSums(n - 1, f), Row(f, n - 1), ColumnSums(n, f));
    } else {
      SumZero(m, ColumnSums(n, f));
    }
  }
}
