/** Finite sums of real-valued terms, `Sum(n, f) = f(0) + ... + f(n - 1)`,
    and the rearrangements the matrix proofs need. */
module Sums {

  function Sum(n: nat, f: nat -> real): real
  {
    if n == 0 then 0.0 else Sum(n - 1, f) + f(n - 1)
  }

  /** Sums of terms that agree on 0..n-1 are equal. */
  lemma {:induction false} SumExt(n: nat, f: nat -> real, g: nat -> real)
    requires forall k :: 0 <= k < n ==> f(k) == g(k)
    ensures Sum(n, f) == Sum(n, g)
  {
    if n > 0 {
      SumExt(n - 1, f, g);
    }
  }

  lemma {:induction false} SumZero(n: nat, f: nat -> real)
    requires forall k :: 0 <= k < n ==> f(k) == 0.0
    ensures Sum(n, f) == 0.0
  {
    if n > 0 {
      SumZero(n - 1, f);
    }
  }

  /** A constant factor moves out of a sum. */
  lemma {:induction false} SumScale(n: nat, f: nat -> real, g: nat -> real, c: real)
    requires forall k :: 0 <= k < n ==> g(k) == c * f(k)
    ensures Sum(n, g) == c * Sum(n, f)
  {
    if n > 0 {
      SumScale(n - 1, f, g, c);
    }
  }

  /** Two terms written out. */
  lemma SumTwo(f: nat -> real)
    ensures Sum(2, f) == f(0) + f(1)
  {
  }

  /** n terms that are all 1 add up to n. */
  lemma {:induction false} SumOnes(n: nat, f: nat -> real)
    requires forall i :: 0 <= i < n ==> f(i) == 1.0
    ensures Sum(n, f) == n as real
  {
    if n > 0 {
      SumOnes(n - 1, f);
    }
  }

  /** The terms of `f`, each multiplied by `c`. */
  function Scaled(c: real, f: nat -> real): nat -> real
  {
    (k: nat) => c * f(k)
  }

  lemma SumScaled(n: nat, c: real, f: nat -> real)
    ensures Sum(n, Scaled(c, f)) == c * Sum(n, f)
  {
    SumScale(n, f, Scaled(c, f), c);
  }

  /** Terms that are those of f times c add up to the sum of f times c. */
  lemma SumTimes(n: nat, f: nat -> real, g: nat -> real, c: real)
    requires forall k :: 0 <= k < n ==> g(k) == Scaled(c, f)(k)
    ensures Sum(n, g) == Sum(n, f) * c
  {
    SumExt(n, g, Scaled(c, f));
    SumScaled(n, c, f);
  }

  /** The sum of termwise sums is the sum of the two sums. */
  lemma {:induction false} SumAdd(n: nat, f: nat -> real, g: nat -> real, h: nat -> real)
    requires forall k :: 0 <= k < n ==> h(k) == f(k) + g(k)
    ensures Sum(n, h) == Sum(n, f) + Sum(n, g)
  {
    if n > 0 {
      SumAdd(n - 1, f, g, h);
    }
  }

  /** A sum with one possibly non-zero term is that term. */
  lemma {:induction false} SumSingle(n: nat, f: nat -> real, p: nat)
    requires p < n
    requires forall k :: 0 <= k < n && k != p ==> f(k) == 0.0
    ensures Sum(n, f) == f(p)
  {
    if n - 1 == p {
      SumZero(n - 1, f);
    } else {
      SumSingle(n - 1, f, p);
    }
  }

  /** Index `l` of 0..n-2 taken as index `l` of 0..n-1 with `j` skipped. */
  function Skip(l: nat, j: nat): (r: nat)
    ensures r != j
  {
    if l < j then l else l + 1
  }

  /** The terms of `g` with the one at `j` replaced by zero. */
  function Without(g: nat -> real, j: nat): nat -> real
  {
    (c: nat) => if c == j then 0.0 else g(c)
  }

  /** Summing over every index but `j` is summing over all indices with the
      term at `j` replaced by zero. */
  lemma {:induction false} SumSkip(n: nat, f: nat -> real, g: nat -> real, j: nat)
    requires j < n
    requires forall l :: 0 <= l < n - 1 ==> f(l) == g(Skip(l, j))
    ensures Sum(n - 1, f) == Sum(n, Without(g, j))
  {
    if j == n - 1 {
      SumExt(n - 1, f, Without(g, j));
    } else {
      SumSkip(n - 1, f, g, j);
    }
  }

  /** Row `i` and column `j` of a doubly indexed family of terms. */
  function Row(F: (nat, nat) -> real, i: nat): nat -> real
  {
    (j: nat) => F(i, j)
  }

  function Col(F: (nat, nat) -> real, j: nat): nat -> real
  {
    (i: nat) => F(i, j)
  }

  /** The sums of the first `m` terms of each row, and of the first `n` terms of each column. */
  function RowSums(F: (nat, nat) -> real, m: nat): nat -> real
  {
    (i: nat) => Sum(m, Row(F, i))
  }

  function ColSums(F: (nat, nat) -> real, n: nat): nat -> real
  {
    (j: nat) => Sum(n, Col(F, j))
  }

  /** The order of summation of a double sum does not matter. */
  lemma {:induction false} SumSwap(n: nat, m: nat, F: (nat, nat) -> real)
    ensures Sum(n, RowSums(F, m)) == Sum(m, ColSums(F, n))
  {
    if n == 0 {
      SumZero(m, ColSums(F, n));
    } else {
      SumSwap(n - 1, m, F);
      forall k | 0 <= k < m
        ensures ColSums(F, n)(k) == ColSums(F, n - 1)(k) + Row(F, n - 1)(k)
      {
        assert Sum(n, Col(F, k)) == Sum(n - 1, Col(F, k)) + Col(F, k)(n - 1);
      }
      SumAdd(m, ColSums(F, n - 1), Row(F, n - 1), ColSums(F, n));
      assert Sum(n, RowSums(F, m)) == Sum(n - 1, RowSums(F, m)) + RowSums(F, m)(n - 1);
      assert RowSums(F, m)(n - 1) == Sum(m, Row(F, n - 1));
    }
  }

  /** Each of the n x n terms U(i, j) is c times T(j, i). */
  predicate ScaledTranspose(n: nat, T: (nat, nat) -> real, U: (nat, nat) -> real, c: real)
  {
    forall i: nat, j: nat :: i < n && j < n ==> U(i, j) == c * T(j, i)
  }

  /** A double sum of terms that are c times the transposed terms of another
      is c times the other double sum. */
  lemma SumTransposed(n: nat, T: (nat, nat) -> real, U: (nat, nat) -> real, c: real)
    requires ScaledTranspose(n, T, U, c)
    ensures Sum(n, RowSums(U, n)) == c * Sum(n, RowSums(T, n))
  {
    forall i | 0 <= i < n
      ensures RowSums(U, n)(i) == c * ColSums(T, n)(i)
    {
      forall j | 0 <= j < n
        ensures Row(U, i)(j) == c * Col(T, i)(j)
      {
      }
      SumScale(n, Col(T, i), Row(U, i), c);
    }
    SumScale(n, ColSums(T, n), RowSums(U, n), c);
    SumSwap(n, n, T);
  }
}
