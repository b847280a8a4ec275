/** The cofactor (Laplace) expansion of the determinant of an n x n array of
    entries, and the facts about it that `adjugate` and `inverse` rest on:
    exchanging two adjacent rows negates it, two equal rows make it vanish,
    it can be expanded along any row, and expanding one row against the
    cofactors of another gives zero. The entries are a function from
    (row, column) to a value, so that the proofs need no storage layout. */
module Laplace {
  import opened Sums

  /** Entry (i, j) of a square array is `F(i, j)`. */
  type Entries = (nat, nat) -> real

  /** (-1)^k. */
  function Sign(k: nat): real
  {
    if k % 2 == 0 then 1.0 else -1.0
  }

  /** x times (-1)^k, written as a case split so that signs add no products. */
  function Signed(k: nat, x: real): real
  {
    if k % 2 == 0 then x else -x
  }

  lemma SignedIsSign(k: nat, x: real)
    ensures Signed(k, x) == Sign(k) * x
  {
  }

  /** The entries without row r and column c. */
  function MinorOf(F: Entries, r: nat, c: nat): Entries
  {
    (i: nat, j: nat) => F(Skip(i, r), Skip(j, c))
  }

  /** The determinant of the n x n array F, by expansion along the first row. */
  function Expand(n: nat, F: Entries): real
    requires n >= 1
    decreases n, 2, 0
  {
    if n == 1 then F(0, 0) else FirstRow(n, F, n)
  }

  /** The first k terms of the expansion along the first row. */
  function FirstRow(n: nat, F: Entries, k: nat): real
    requires n >= 2
    decreases n, 1, k
  {
    if k == 0 then 0.0 else FirstRow(n, F, k - 1) + F(0, k - 1) * Cof(n, F, 0, k - 1)
  }

  /** The cofactor of entry (i, j). */
  function Cof(n: nat, F: Entries, i: nat, j: nat): real
    requires n >= 2
    decreases n, 0, 0
  {
    Signed(i + j, Expand(n - 1, MinorOf(F, i, j)))
  }

  /** Term j of the expansion along row i. */
  function Term(n: nat, F: Entries, i: nat, j: nat): real
    requires n >= 2
  {
    F(i, j) * Cof(n, F, i, j)
  }

  function RowTerms(n: nat, F: Entries, i: nat): nat -> real
    requires n >= 2
  {
    (j: nat) => Term(n, F, i, j)
  }

  lemma {:induction false} FirstRowIsSum(n: nat, F: Entries, k: nat)
    requires n >= 2
    ensures FirstRow(n, F, k) == Sum(k, RowTerms(n, F, 0))
  {
    if k > 0 {
      FirstRowIsSum(n, F, k - 1);
      assert RowTerms(n, F, 0)(k - 1) == Term(n, F, 0, k - 1);
    }
  }

  lemma ExpandUnfold(n: nat, F: Entries)
    requires n >= 2
    ensures Expand(n, F) == Sum(n, RowTerms(n, F, 0))
  {
    FirstRowIsSum(n, F, n);
  }

  /** F and G have the same n x n entries. */
  ghost predicate Agree(n: nat, F: Entries, G: Entries)
  {
    forall i: nat, j: nat :: i < n && j < n ==> F(i, j) == G(i, j)
  }

  lemma AgreeMinor(n: nat, F: Entries, G: Entries, r: nat, c: nat)
    requires n >= 1 && Agree(n, F, G)
    ensures Agree(n - 1, MinorOf(F, r, c), MinorOf(G, r, c))
  {
    forall i: nat, j: nat | i < n - 1 && j < n - 1
      ensures MinorOf(F, r, c)(i, j) == MinorOf(G, r, c)(i, j)
    {
      assert Skip(i, r) < n && Skip(j, c) < n;
    }
  }

  /** The expansion only reads the n x n entries. */
  lemma {:induction false} ExpandCongruent(n: nat, F: Entries, G: Entries)
    requires n >= 1 && Agree(n, F, G)
    ensures Expand(n, F) == Expand(n, G)
  {
    if n >= 2 {
      forall j | 0 <= j < n
        ensures RowTerms(n, F, 0)(j) == RowTerms(n, G, 0)(j)
      {
        AgreeMinor(n, F, G, 0, j);
        ExpandCongruent(n - 1, MinorOf(F, 0, j), MinorOf(G, 0, j));
        assert RowTerms(n, F, 0)(j) == Term(n, F, 0, j);
        assert RowTerms(n, G, 0)(j) == Term(n, G, 0, j);
      }
      ExpandUnfold(n, F);
      ExpandUnfold(n, G);
      SumExt(n, RowTerms(n, F, 0), RowTerms(n, G, 0));
    }
  }

  // ---------------------------------------------------------------------
  // Small sizes

  lemma Expand2(F: Entries)
    ensures Expand(2, F) == F(0, 0) * F(1, 1) - F(0, 1) * F(1, 0)
  {
    ExpandUnfold(2, F);
    assert Skip(0, 0) == 1 && Skip(0, 1) == 0;
    assert Cof(2, F, 0, 0) == F(1, 1);
    assert Cof(2, F, 0, 1) == -F(1, 0);
    assert RowTerms(2, F, 0)(0) == Term(2, F, 0, 0);
    assert RowTerms(2, F, 0)(1) == Term(2, F, 0, 1);
  }

  lemma Expand3Minor(F: Entries, j: nat)
    ensures var a, b := Skip(0, j), Skip(1, j);
      Expand(2, MinorOf(F, 0, j)) == F(1, a) * F(2, b) - F(1, b) * F(2, a)
  {
    Expand2(MinorOf(F, 0, j));
    assert Skip(0, 0) == 1 && Skip(1, 0) == 2;
  }

  lemma Expand3(F: Entries)
    ensures Expand(3, F) ==
      F(0, 0) * (F(1, 1) * F(2, 2) - F(1, 2) * F(2, 1))
      - F(0, 1) * (F(1, 0) * F(2, 2) - F(1, 2) * F(2, 0))
      + F(0, 2) * (F(1, 0) * F(2, 1) - F(1, 1) * F(2, 0))
  {
    ExpandUnfold(3, F);
    var f := RowTerms(3, F, 0);
    assert Sum(3, f) == f(0) + f(1) + f(2);
    Expand3Minor(F, 0);
    Expand3Minor(F, 1);
    Expand3Minor(F, 2);
    assert Skip(0, 0) == 1 && Skip(1, 0) == 2 && Skip(0, 1) == 0 && Skip(1, 1) == 2 && Skip(0, 2) == 0 && Skip(1, 2) == 1;
    assert f(0) == Term(3, F, 0, 0) && f(1) == Term(3, F, 0, 1) && f(2) == Term(3, F, 0, 2);
    var d0, d1, d2 := Expand(2, MinorOf(F, 0, 0)), Expand(2, MinorOf(F, 0, 1)), Expand(2, MinorOf(F, 0, 2));
    assert Cof(3, F, 0, 0) == d0 && Cof(3, F, 0, 1) == -d1 && Cof(3, F, 0, 2) == d2;
  }

  // ---------------------------------------------------------------------
  // Exchanging two rows

  /** Row index i after rows p and q are exchanged. */
  function Exchanged(i: nat, p: nat, q: nat): nat
  {
    if i == p then q else if i == q then p else i
  }

  /** F with rows p and q exchanged. */
  function SwapOf(F: Entries, p: nat, q: nat): Entries
  {
    (i: nat, j: nat) => F(Exchanged(i, p, q), j)
  }

  /** Below the first row, exchanging rows p and p + 1 exchanges rows p - 1
      and p of each first-row minor. */
  lemma MinorSwapBelow(n: nat, F: Entries, p: nat, j: nat)
    requires 1 <= p && p + 1 < n
    ensures Agree(n - 1, MinorOf(SwapOf(F, p, p + 1), 0, j), SwapOf(MinorOf(F, 0, j), p - 1, p))
  {
    var A, B := MinorOf(SwapOf(F, p, p + 1), 0, j), SwapOf(MinorOf(F, 0, j), p - 1, p);
    forall i: nat, c: nat | i < n - 1 && c < n - 1
      ensures A(i, c) == B(i, c)
    {
      var e := Exchanged(i, p - 1, p);
      assert Skip(i, 0) == i + 1 && Skip(e, 0) == e + 1;
      assert e + 1 == Exchanged(i + 1, p, p + 1);
    }
  }

  lemma TermIs(n: nat, F: Entries, i: nat, j: nat, x: real, c: real)
    requires n >= 2 && F(i, j) == x && Cof(n, F, i, j) == c
    ensures Term(n, F, i, j) == x * c
  {
  }

  lemma NegatedTerm(t: real, u: real, x: real, a: real, b: real)
    requires t == x * a && u == x * b && a == -b
    ensures t == -1.0 * u
  {
  }

  /** Term j of the first-row expansion once rows p and p + 1 (below the
      first row) are exchanged, given that this negates the minor's expansion. */
  lemma TermSwapBelow(n: nat, F: Entries, p: nat, j: nat)
    requires 1 <= p && p + 1 < n
    requires Expand(n - 1, MinorOf(SwapOf(F, p, p + 1), 0, j)) == -Expand(n - 1, MinorOf(F, 0, j))
    ensures Term(n, SwapOf(F, p, p + 1), 0, j) == -1.0 * Term(n, F, 0, j)
  {
    var S := SwapOf(F, p, p + 1);
    var x, d, e := F(0, j), Expand(n - 1, MinorOf(F, 0, j)), Expand(n - 1, MinorOf(S, 0, j));
    assert Exchanged(0, p, p + 1) == 0;
    assert S(0, j) == x;
    TermIs(n, S, 0, j, x, Signed(j, e));
    TermIs(n, F, 0, j, x, Signed(j, d));
    NegatedTerm(Term(n, S, 0, j), Term(n, F, 0, j), x, Signed(j, e), Signed(j, d));
  }

  /** Exchanging two adjacent rows negates the determinant. */
  lemma {:induction false} SwapAdjacent(n: nat, F: Entries, p: nat)
    requires n >= 2 && p + 1 < n
    ensures Expand(n, SwapOf(F, p, p + 1)) == -Expand(n, F)
  {
    var S := SwapOf(F, p, p + 1);
    if n == 2 {
      Expand2(F);
      Expand2(S);
      assert Exchanged(0, 0, 1) == 1 && Exchanged(1, 0, 1) == 0;
      assert S(0, 0) == F(1, 0) && S(0, 1) == F(1, 1) && S(1, 0) == F(0, 0) && S(1, 1) == F(0, 1);
    } else if p == 0 {
      SwapFirst(n, F);
    } else {
      forall j | 0 <= j < n
        ensures RowTerms(n, S, 0)(j) == -1.0 * RowTerms(n, F, 0)(j)
      {
        MinorSwapBelow(n, F, p, j);
        ExpandCongruent(n - 1, MinorOf(S, 0, j), SwapOf(MinorOf(F, 0, j), p - 1, p));
        SwapAdjacent(n - 1, MinorOf(F, 0, j), p - 1);
        TermSwapBelow(n, F, p, j);
        assert RowTerms(n, S, 0)(j) == Term(n, S, 0, j);
        assert RowTerms(n, F, 0)(j) == Term(n, F, 0, j);
      }
      SumScale(n, RowTerms(n, F, 0), RowTerms(n, S, 0), -1.0);
      ExpandUnfold(n, F);
      ExpandUnfold(n, S);
    }
  }

  // ---------------------------------------------------------------------
  // Expansion along the first two rows at once

  /** x with the sign that skipping column j gives column c of a first-row minor. */
  function Oriented(j: nat, c: nat, x: real): real
  {
    if c < j then x else -x
  }

  /** The entries without the first two rows and without columns lo < hi. */
  function Minor2Of(F: Entries, lo: nat, hi: nat): Entries
  {
    (i: nat, l: nat) => F(i + 2, Skip(Skip(l, lo), hi))
  }

  /** The entries without the first two rows and without columns j and c. */
  function Minor2(F: Entries, j: nat, c: nat): Entries
  {
    if j < c then Minor2Of(F, j, c) else Minor2Of(F, c, j)
  }

  lemma SkipSkip(l: nat, c: nat, j: nat)
    ensures var k := Skip(c, j);
      Skip(Skip(l, c), j) == Skip(Skip(l, if j < k then j else k), if j < k then k else j)
  {
  }

  /** Column l of a minor of a first-row minor, as a column of the whole. */
  lemma MinorMinor(n: nat, F: Entries, j: nat, l: nat)
    ensures Agree(n, MinorOf(MinorOf(F, 0, j), 0, l), Minor2(F, j, Skip(l, j)))
  {
    var A, B := MinorOf(MinorOf(F, 0, j), 0, l), Minor2(F, j, Skip(l, j));
    forall i: nat, c: nat | i < n && c < n
      ensures A(i, c) == B(i, c)
    {
      SkipSkip(c, l, j);
      assert Skip(i, 0) == i + 1 && Skip(i + 1, 0) == i + 2;
    }
  }

  lemma SignSkip(l: nat, j: nat, x: real)
    ensures Signed(l, x) == Signed(Skip(l, j), Oriented(j, Skip(l, j), x))
  {
  }

  /** Column c of the first-row expansion of the first-row minor without
      column j, indexed by the columns of F. */
  function SecondTerm(n: nat, F: Entries, j: nat, c: nat): real
    requires n >= 3
  {
    F(1, c) * Signed(c, Oriented(j, c, Expand(n - 2, Minor2(F, j, c))))
  }

  function SecondRowTerms(n: nat, F: Entries, j: nat): nat -> real
    requires n >= 3
  {
    (c: nat) => SecondTerm(n, F, j, c)
  }

  /** The terms of the expansion along the first two rows that take column j
      from row 0: the second-row terms of the first-row minor without column j,
      scaled by the signed entry (0, j). */
  function PairRow(n: nat, F: Entries, j: nat): nat -> real
    requires n >= 3
  {
    Scaled(Signed(j, F(0, j)), Without(SecondRowTerms(n, F, j), j))
  }

  /** The term of the expansion along the first two rows that takes column j
      from row 0 and column c from row 1. */
  function PairTerm(n: nat, F: Entries, j: nat, c: nat): real
    requires n >= 3
  {
    PairRow(n, F, j)(c)
  }

  function PairTerms(n: nat, F: Entries): (nat, nat) -> real
    requires n >= 3
  {
    (j: nat, c: nat) => PairTerm(n, F, j, c)
  }

  lemma SecondTermIs(n: nat, F: Entries, j: nat, c: nat, x: real, s: real)
    requires n >= 3 && F(1, c) == x && Signed(c, Oriented(j, c, Expand(n - 2, Minor2(F, j, c)))) == s
    ensures SecondTerm(n, F, j, c) == x * s
  {
  }

  lemma SecondRowTerm(n: nat, F: Entries, j: nat, l: nat)
    requires n >= 3 && l < n - 1
    ensures Term(n - 1, MinorOf(F, 0, j), 0, l) == SecondTerm(n, F, j, Skip(l, j))
  {
    var M, c := MinorOf(F, 0, j), Skip(l, j);
    MinorMinor(n - 2, F, j, l);
    ExpandCongruent(n - 2, MinorOf(M, 0, l), Minor2(F, j, c));
    var x, d := F(1, c), Expand(n - 2, Minor2(F, j, c));
    SignSkip(l, j, d);
    assert Skip(0, 0) == 1;
    assert M(0, l) == x;
    TermIs(n - 1, M, 0, l, x, Signed(l, d));
    SecondTermIs(n, F, j, c, x, Signed(l, d));
  }

  /** The sign moves from one factor to the other. */
  lemma SignedMoves(k: nat, x: real, e: real)
    ensures x * Signed(k, e) == Signed(k, x) * e
  {
  }

  /** The first-row expansion of the minor without column j, as a sum over
      all columns of F with column j left out. */
  lemma ExpandMinorSkipping(n: nat, F: Entries, j: nat)
    requires n >= 3 && j < n
    ensures Expand(n - 1, MinorOf(F, 0, j)) == Sum(n, Without(SecondRowTerms(n, F, j), j))
  {
    var M, g := MinorOf(F, 0, j), SecondRowTerms(n, F, j);
    ExpandUnfold(n - 1, M);
    forall l | 0 <= l < n - 1
      ensures RowTerms(n - 1, M, 0)(l) == g(Skip(l, j))
    {
      SecondRowTerm(n, F, j, l);
      assert RowTerms(n - 1, M, 0)(l) == Term(n - 1, M, 0, l);
      assert g(Skip(l, j)) == SecondTerm(n, F, j, Skip(l, j));
    }
    SumSkip(n, RowTerms(n - 1, M, 0), g, j);
  }

  lemma PairRowTerms(n: nat, F: Entries, j: nat)
    requires n >= 3
    ensures Sum(n, Row(PairTerms(n, F), j)) == Sum(n, PairRow(n, F, j))
  {
    forall c | 0 <= c < n
      ensures Row(PairTerms(n, F), j)(c) == PairRow(n, F, j)(c)
    {
    }
    SumExt(n, Row(PairTerms(n, F), j), PairRow(n, F, j));
  }

  /** Row j of the pair terms is the second-row expansion without column j,
      scaled by the signed entry (0, j). */
  lemma PairRowSum(n: nat, F: Entries, j: nat)
    requires n >= 3
    ensures Sum(n, Row(PairTerms(n, F), j)) == Signed(j, F(0, j)) * Sum(n, Without(SecondRowTerms(n, F, j), j))
  {
    calc {
      Sum(n, Row(PairTerms(n, F), j));
    == { PairRowTerms(n, F, j); }
      Sum(n, PairRow(n, F, j));
    == { SumScaled(n, Signed(j, F(0, j)), Without(SecondRowTerms(n, F, j), j)); }
      Signed(j, F(0, j)) * Sum(n, Without(SecondRowTerms(n, F, j), j));
    }
  }

  /** Term j of the first-row expansion, with the sign moved onto the entry. */
  lemma FirstRowTermFactor(n: nat, F: Entries, j: nat)
    requires n >= 2
    ensures Term(n, F, 0, j) == Signed(j, F(0, j)) * Expand(n - 1, MinorOf(F, 0, j))
  {
    assert 0 + j == j;
    TermIs(n, F, 0, j, F(0, j), Signed(j, Expand(n - 1, MinorOf(F, 0, j))));
    SignedMoves(j, F(0, j), Expand(n - 1, MinorOf(F, 0, j)));
  }

  lemma ExpandSecondRow(n: nat, F: Entries, j: nat)
    requires n >= 3 && j < n
    ensures Term(n, F, 0, j) == Sum(n, Row(PairTerms(n, F), j))
  {
    calc {
      Term(n, F, 0, j);
    == { FirstRowTermFactor(n, F, j); }
      Signed(j, F(0, j)) * Expand(n - 1, MinorOf(F, 0, j));
    == { ExpandMinorSkipping(n, F, j); }
      Signed(j, F(0, j)) * Sum(n, Without(SecondRowTerms(n, F, j), j));
    == { PairRowSum(n, F, j); }
      Sum(n, Row(PairTerms(n, F), j));
    }
  }

  /** The determinant as a double sum over the first two rows. */
  lemma DoubleExpansion(n: nat, F: Entries)
    requires n >= 3
    ensures Expand(n, F) == Sum(n, RowSums(PairTerms(n, F), n))
  {
    ExpandUnfold(n, F);
    forall j | 0 <= j < n
      ensures RowTerms(n, F, 0)(j) == RowSums(PairTerms(n, F), n)(j)
    {
      ExpandSecondRow(n, F, j);
      assert RowTerms(n, F, 0)(j) == Term(n, F, 0, j);
    }
    SumExt(n, RowTerms(n, F, 0), RowSums(PairTerms(n, F), n));
  }

  lemma Minor2Swap(n: nat, F: Entries, j: nat, c: nat)
    ensures Agree(n, Minor2(SwapOf(F, 0, 1), j, c), Minor2(F, j, c))
  {
    var A, B := Minor2(SwapOf(F, 0, 1), j, c), Minor2(F, j, c);
    forall i: nat, l: nat | i < n && l < n
      ensures A(i, l) == B(i, l)
    {
      assert Exchanged(i + 2, 0, 1) == i + 2;
    }
  }

  lemma AntisymmetricTerm(x: real, y: real, j: nat, c: nat, p: real, o: real)
    requires p == -o
    ensures Signed(j, y) * (x * Signed(c, p)) == -1.0 * (Signed(c, x) * (y * Signed(j, o)))
  {
  }

  /** Exchanging the first two rows turns term (j, c) into minus term (c, j). */
  lemma PairTermSwap(n: nat, F: Entries, j: nat, c: nat)
    requires n >= 3
    ensures PairTerm(n, SwapOf(F, 0, 1), j, c) == -1.0 * PairTerm(n, F, c, j)
  {
    if j != c {
      var S := SwapOf(F, 0, 1);
      Minor2Swap(n - 2, F, j, c);
      ExpandCongruent(n - 2, Minor2(S, j, c), Minor2(F, j, c));
      assert Minor2(F, j, c) == Minor2(F, c, j);
      var x, y, d := F(0, c), F(1, j), Expand(n - 2, Minor2(F, j, c));
      assert Exchanged(0, 0, 1) == 1 && Exchanged(1, 0, 1) == 0;
      assert S(0, j) == y && S(1, c) == x;
      var p, o := Oriented(j, c, d), Oriented(c, j, d);
      SecondTermIs(n, S, j, c, x, Signed(c, p));
      SecondTermIs(n, F, c, j, y, Signed(j, o));
      AntisymmetricTerm(x, y, j, c, p, o);
    }
  }

  lemma SwapFirst(n: nat, F: Entries)
    requires n >= 3
    ensures Expand(n, SwapOf(F, 0, 1)) == -Expand(n, F)
  {
    var S := SwapOf(F, 0, 1);
    calc {
      Expand(n, S);
    == { DoubleExpansion(n, S); }
      Sum(n, RowSums(PairTerms(n, S), n));
    == { PairTermsSwappedEach(n, F); SumTransposed(n, PairTerms(n, F), PairTerms(n, S), -1.0); }
      -1.0 * Sum(n, RowSums(PairTerms(n, F), n));
    == { DoubleExpansion(n, F); }
      -Expand(n, F);
    }
  }

  /** Every pair term for F with its first two rows exchanged is minus the
      transposed pair term for F. */
  lemma PairTermsSwappedEach(n: nat, F: Entries)
    requires n >= 3
    ensures ScaledTranspose(n, PairTerms(n, F), PairTerms(n, SwapOf(F, 0, 1)), -1.0)
  {
    forall j: nat, c: nat | j < n && c < n
      ensures PairTerms(n, SwapOf(F, 0, 1))(j, c) == -1.0 * PairTerms(n, F)(c, j)
    {
      PairTermSwap(n, F, j, c);
    }
  }

  // ---------------------------------------------------------------------
  // Equal rows, expansion along any row, cofactors of another row

  /** Rows p and q of F are equal. */
  ghost predicate SameRows(n: nat, F: Entries, p: nat, q: nat)
  {
    forall j: nat :: j < n ==> F(p, j) == F(q, j)
  }

  /** Two equal adjacent rows make the determinant vanish. */
  lemma EqualAdjacentRows(n: nat, F: Entries, p: nat)
    requires n >= 2 && p + 1 < n && SameRows(n, F, p, p + 1)
    ensures Expand(n, F) == 0.0
  {
    var S := SwapOf(F, p, p + 1);
    forall i: nat, j: nat | i < n && j < n
      ensures S(i, j) == F(i, j)
    {
      var e := Exchanged(i, p, p + 1);
      assert S(i, j) == F(e, j);
    }
    ExpandCongruent(n, S, F);
    SwapAdjacent(n, F, p);
  }

  /** Two equal rows make the determinant vanish. */
  lemma {:induction false} EqualRows(n: nat, F: Entries, p: nat, q: nat)
    requires p < q < n && SameRows(n, F, p, q)
    ensures Expand(n, F) == 0.0
    decreases q - p
  {
    if q == p + 1 {
      EqualAdjacentRows(n, F, p);
    } else {
      var S := SwapOf(F, q - 1, q);
      forall j: nat | j < n
        ensures S(p, j) == S(q - 1, j)
      {
        assert Exchanged(p, q - 1, q) == p && Exchanged(q - 1, q - 1, q) == q;
      }
      EqualRows(n, S, p, q - 1);
      SwapAdjacent(n, F, q - 1);
    }
  }

  /** Removing row k - 1 of F with rows k - 1 and k exchanged is removing row k of F. */
  lemma MinorOfSwapped(n: nat, F: Entries, k: nat, j: nat)
    requires k >= 1
    ensures Agree(n, MinorOf(SwapOf(F, k - 1, k), k - 1, j), MinorOf(F, k, j))
  {
    var A, B := MinorOf(SwapOf(F, k - 1, k), k - 1, j), MinorOf(F, k, j);
    forall i: nat, c: nat | i < n && c < n
      ensures A(i, c) == B(i, c)
    {
      var r := Skip(i, k - 1);
      assert Exchanged(r, k - 1, k) == Skip(i, k);
    }
  }

  lemma SignStep(k: nat, x: real)
    requires k >= 1
    ensures Signed(k - 1, x) == -Signed(k, x)
  {
  }

  lemma TermOfSwapped(n: nat, F: Entries, k: nat, j: nat)
    requires n >= 2 && 1 <= k < n
    ensures Term(n, SwapOf(F, k - 1, k), k - 1, j) == -1.0 * Term(n, F, k, j)
  {
    var S := SwapOf(F, k - 1, k);
    MinorOfSwapped(n - 1, F, k, j);
    ExpandCongruent(n - 1, MinorOf(S, k - 1, j), MinorOf(F, k, j));
    var x, d := F(k, j), Expand(n - 1, MinorOf(F, k, j));
    assert Exchanged(k - 1, k - 1, k) == k;
    assert S(k - 1, j) == x;
    SignStep(k + j, d);
    TermIs(n, S, k - 1, j, x, Signed(k + j - 1, d));
    TermIs(n, F, k, j, x, Signed(k + j, d));
    NegatedTerm(Term(n, S, k - 1, j), Term(n, F, k, j), x, Signed(k + j - 1, d), Signed(k + j, d));
  }

  /** The determinant is the expansion along any row. */
  lemma {:induction false} RowExpansion(n: nat, F: Entries, k: nat)
    requires n >= 2 && k < n
    ensures Expand(n, F) == Sum(n, RowTerms(n, F, k))
  {
    if k == 0 {
      ExpandUnfold(n, F);
    } else {
      var S := SwapOf(F, k - 1, k);
      RowExpansion(n, S, k - 1);
      SwapAdjacent(n, F, k - 1);
      forall j | 0 <= j < n
        ensures RowTerms(n, S, k - 1)(j) == -1.0 * RowTerms(n, F, k)(j)
      {
        TermOfSwapped(n, F, k, j);
        assert RowTerms(n, S, k - 1)(j) == Term(n, S, k - 1, j);
        assert RowTerms(n, F, k)(j) == Term(n, F, k, j);
      }
      SumScale(n, RowTerms(n, F, k), RowTerms(n, S, k - 1), -1.0);
    }
  }

  /** Row i of F taken with the cofactors of row k. */
  function CrossTerm(n: nat, F: Entries, i: nat, k: nat, j: nat): real
    requires n >= 2
  {
    F(i, j) * Cof(n, F, k, j)
  }

  function CrossTerms(n: nat, F: Entries, i: nat, k: nat): nat -> real
    requires n >= 2
  {
    (j: nat) => CrossTerm(n, F, i, k, j)
  }

  /** F with row k replaced by row i. */
  function ReplaceRow(F: Entries, k: nat, i: nat): Entries
  {
    (r: nat, j: nat) => if r == k then F(i, j) else F(r, j)
  }

  lemma CrossTermIs(n: nat, F: Entries, i: nat, k: nat, j: nat, x: real, c: real)
    requires n >= 2 && F(i, j) == x && Cof(n, F, k, j) == c
    ensures CrossTerms(n, F, i, k)(j) == x * c
  {
  }

  lemma CrossTermIsTerm(n: nat, F: Entries, i: nat, k: nat, j: nat)
    requires n >= 2
    ensures CrossTerm(n, F, i, k, j) == Term(n, ReplaceRow(F, k, i), k, j)
  {
    var R := ReplaceRow(F, k, i);
    var A, B := MinorOf(R, k, j), MinorOf(F, k, j);
    forall r: nat, c: nat | r < n - 1 && c < n - 1
      ensures A(r, c) == B(r, c)
    {
      assert Skip(r, k) != k;
    }
    ExpandCongruent(n - 1, A, B);
  }

  /** Expanding row i against the cofactors of row k gives the determinant
      when i = k and zero otherwise. */
  lemma CrossExpansion(n: nat, F: Entries, i: nat, k: nat)
    requires n >= 2 && i < n && k < n
    ensures Sum(n, CrossTerms(n, F, i, k)) == if i == k then Expand(n, F) else 0.0
  {
    var R := ReplaceRow(F, k, i);
    forall j | 0 <= j < n
      ensures CrossTerms(n, F, i, k)(j) == RowTerms(n, R, k)(j)
    {
      CrossTermIsTerm(n, F, i, k, j);
      assert RowTerms(n, R, k)(j) == Term(n, R, k, j);
    }
    SumExt(n, CrossTerms(n, F, i, k), RowTerms(n, R, k));
    RowExpansion(n, R, k);
    if i == k {
      assert Agree(n, R, F);
      ExpandCongruent(n, R, F);
    } else {
      assert SameRows(n, R, i, k);
      if i < k {
        EqualRows(n, R, i, k);
      } else {
        assert SameRows(n, R, k, i);
        EqualRows(n, R, k, i);
      }
    }
  }
}
