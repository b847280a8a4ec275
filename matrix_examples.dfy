/** The values the matrix unit tests expect, derived from the model. */
module MatrixExamples {
  import opened Sums
  import opened Checked
  import opened Matrices
  import opened Laplace
  import opened Determinants

  /** Reading a literal 2 x 2 matrix by coordinates. */
  lemma Get2(m: Mat)
    requires m.rows == 2 && m.cols == 2
    ensures Get(m, 0, 0) == m.elements[0] && Get(m, 0, 1) == m.elements[1]
    ensures Get(m, 1, 0) == m.elements[2] && Get(m, 1, 1) == m.elements[3]
  {
    assert Size(1, 2) == 2 && Size(2, 2) == 4;
  }

  /** Reading a literal 3 x 3 matrix by coordinates. */
  lemma Get3(m: Mat)
    requires m.rows == 3 && m.cols == 3
    ensures Get(m, 0, 0) == m.elements[0] && Get(m, 0, 1) == m.elements[1] && Get(m, 0, 2) == m.elements[2]
    ensures Get(m, 1, 0) == m.elements[3] && Get(m, 1, 1) == m.elements[4] && Get(m, 1, 2) == m.elements[5]
    ensures Get(m, 2, 0) == m.elements[6] && Get(m, 2, 1) == m.elements[7] && Get(m, 2, 2) == m.elements[8]
  {
    assert Size(1, 3) == 3 && Size(2, 3) == 6;
  }

  /** Reading a literal 4 x 4 matrix by coordinates. */
  lemma Get4(m: Mat)
    requires m.rows == 4 && m.cols == 4
    ensures Get(m, 0, 0) == m.elements[0] && Get(m, 0, 1) == m.elements[1] && Get(m, 0, 2) == m.elements[2] && Get(m, 0, 3) == m.elements[3]
    ensures Get(m, 1, 0) == m.elements[4] && Get(m, 1, 1) == m.elements[5] && Get(m, 1, 2) == m.elements[6] && Get(m, 1, 3) == m.elements[7]
    ensures Get(m, 2, 0) == m.elements[8] && Get(m, 2, 1) == m.elements[9] && Get(m, 2, 2) == m.elements[10] && Get(m, 2, 3) == m.elements[11]
    ensures Get(m, 3, 0) == m.elements[12] && Get(m, 3, 1) == m.elements[13] && Get(m, 3, 2) == m.elements[14] && Get(m, 3, 3) == m.elements[15]
  {
    assert Size(1, 4) == 4 && Size(2, 4) == 8 && Size(3, 4) == 12;
  }

  /** Reading a literal 3 x 2 matrix by coordinates. */
  lemma Get32(m: Mat)
    requires m.rows == 3 && m.cols == 2
    ensures Get(m, 0, 0) == m.elements[0] && Get(m, 0, 1) == m.elements[1]
    ensures Get(m, 1, 0) == m.elements[2] && Get(m, 1, 1) == m.elements[3]
    ensures Get(m, 2, 0) == m.elements[4] && Get(m, 2, 1) == m.elements[5]
  {
    assert Size(1, 2) == 2 && Size(2, 2) == 4 && Size(3, 2) == 6;
  }

  /** Reading a literal column vector by coordinates. */
  lemma GetColumn(m: Mat, i: nat)
    requires m.cols == 1 && i < m.rows
    ensures i < |m.elements| && Get(m, i, 0) == m.elements[i]
  {
    SizeIsProduct(i, 1);
    SizeIsProduct(m.rows, 1);
  }

  /** Element (i, 0) of a product by a 2 x 1 column: a two-term dot product. */
  lemma TwoTermProduct(a: Mat, b: Mat, i: nat)
    requires a.cols == 2 && b.rows == 2 && b.cols == 1 && i < a.rows
    ensures Get(Mul(a, b), i, 0) == RowCol(a, b, i, 0)(0) + RowCol(a, b, i, 0)(1)
  {
    SumTwo(RowCol(a, b, i, 0));
  }

  /** {0, 1, 2, 3, -4, 5} (3 x 2) times {-4, 7} (2 x 1) is {7, 13, 51}. */
  lemma MultiplicationExample()
    ensures Mul(Matrix(3, 2, [0.0, 1.0, 2.0, 3.0, -4.0, 5.0]), Matrix(2, 1, [-4.0, 7.0]))
         == Matrix(3, 1, [7.0, 13.0, 51.0])
  {
    var a, b := Matrix(3, 2, [0.0, 1.0, 2.0, 3.0, -4.0, 5.0]), Matrix(2, 1, [-4.0, 7.0]);
    var p, q := Mul(a, b), Matrix(3, 1, [7.0, 13.0, 51.0]);
    Get32(a);
    GetColumn(b, 0);
    GetColumn(b, 1);
    forall i: nat, j: nat | i < 3 && j < 1
      ensures Get(p, i, j) == Get(q, i, j)
    {
      GetColumn(q, i);
      TwoTermProduct(a, b, i);
      RowColTerm(a, b, i, 0, 0);
      RowColTerm(a, b, i, 0, 1);
    }
    Ext(p, q);
  }

  /** The determinants of the 2 x 2 and 3 x 3 test matrices. */
  lemma DeterminantExamples()
    ensures Det(Matrix(2, 2, [0.0, 2.0, 3.0, 9.0])) == -6.0
    ensures Det(Matrix(2, 2, [-1.0, 2.0, 3.0, 5.0])) == -11.0
    ensures Det(Matrix(3, 3, [0.0, 2.0, 3.0, 9.0, -1.0, -4.0, 3.0, 10.0, -7.0])) == 381.0
    ensures Det(Matrix(3, 3, [-1.0, 2.0, 3.0, 5.0, -4.0, 5.0, -2.0, 7.0, 5.0])) == 66.0
  {
    Get2(Matrix(2, 2, [0.0, 2.0, 3.0, 9.0]));
    Get2(Matrix(2, 2, [-1.0, 2.0, 3.0, 5.0]));
    Get3(Matrix(3, 3, [0.0, 2.0, 3.0, 9.0, -1.0, -4.0, 3.0, 10.0, -7.0]));
    Get3(Matrix(3, 3, [-1.0, 2.0, 3.0, 5.0, -4.0, 5.0, -2.0, 7.0, 5.0]));
  }

  /** The 4 x 4 matrix of the integer determinant test. */
  function Four(): (m: Mat)
    ensures IsSquare(m) && m.rows == 4
  {
    Matrix(4, 4, [0.0, -1.0, 4.0, -7.0, 2.0, 3.0, 4.0, 5.0, -2.0, -3.0, 13.0, 10.0, 16.0, -1.0, 0.0, 4.0])
  }

  lemma FourEntries()
    ensures var F := EntriesOf(Four());
      F(0, 0) == 0.0 && F(0, 1) == -1.0 && F(0, 2) == 4.0 && F(0, 3) == -7.0
      && F(1, 0) == 2.0 && F(1, 1) == 3.0 && F(1, 2) == 4.0 && F(1, 3) == 5.0
      && F(2, 0) == -2.0 && F(2, 1) == -3.0 && F(2, 2) == 13.0 && F(2, 3) == 10.0
      && F(3, 0) == 16.0 && F(3, 1) == -1.0 && F(3, 2) == 0.0 && F(3, 3) == 4.0
  {
    Get4(Four());
  }

  /** The minor of F without row 0 and column j, written out through the
      columns c0 < c1 < c2 that remain. */
  lemma FirstRowMinor(F: Entries, j: nat, c0: nat, c1: nat, c2: nat)
    requires Skip(0, j) == c0 && Skip(1, j) == c1 && Skip(2, j) == c2
    ensures Expand(3, MinorOf(F, 0, j)) ==
      F(1, c0) * (F(2, c1) * F(3, c2) - F(2, c2) * F(3, c1))
      - F(1, c1) * (F(2, c0) * F(3, c2) - F(2, c2) * F(3, c0))
      + F(1, c2) * (F(2, c0) * F(3, c1) - F(2, c1) * F(3, c0))
  {
    var G := MinorOf(F, 0, j);
    Expand3(G);
    assert Skip(0, 0) == 1 && Skip(1, 0) == 2 && Skip(2, 0) == 3;
    assert G(0, 0) == F(1, c0) && G(0, 1) == F(1, c1) && G(0, 2) == F(1, c2);
    assert G(1, 0) == F(2, c0) && G(1, 1) == F(2, c1) && G(1, 2) == F(2, c2);
    assert G(2, 0) == F(3, c0) && G(2, 1) == F(3, c1) && G(2, 2) == F(3, c2);
  }

  /** The four minors along the first row of the 4 x 4 test matrix. */
  lemma FourMinors()
    ensures var F := EntriesOf(Four());
      Expand(3, MinorOf(F, 0, 0)) == 229.0 && Expand(3, MinorOf(F, 0, 1)) == -264.0
      && Expand(3, MinorOf(F, 0, 2)) == 750.0 && Expand(3, MinorOf(F, 0, 3)) == 850.0
  {
    var F := EntriesOf(Four());
    FourEntries();
    FirstRowMinor(F, 0, 1, 2, 3);
    FirstRowMinor(F, 1, 0, 2, 3);
    FirstRowMinor(F, 2, 0, 1, 3);
    FirstRowMinor(F, 3, 0, 1, 2);
  }

  /** The integer 4 x 4 determinant test: 8686. */
  lemma Determinant4Example()
    ensures Det(Four()) == 8686.0
  {
    var F := EntriesOf(Four());
    FourEntries();
    FourMinors();
    ExpandUnfold(4, F);
    var t := RowTerms(4, F, 0);
    assert Sum(4, t) == t(0) + t(1) + t(2) + t(3);
    assert t(0) == Term(4, F, 0, 0) && t(1) == Term(4, F, 0, 1) && t(2) == Term(4, F, 0, 2) && t(3) == Term(4, F, 0, 3);
    assert Sign(0) == 1.0 && Sign(1) == -1.0 && Sign(2) == 1.0 && Sign(3) == -1.0;
  }

  /** The adjugate of the 1 x 1 matrix {2} is the identity. */
  lemma Adjugate1Example()
    ensures Adjugate(Matrix(1, 1, [2.0])) == Identity(1)
  {
  }

  /** The adjugate of {1, 2, 3, 4} is {4, -2, -3, 1}. */
  lemma AdjugateExample()
    ensures Adjugate(Matrix(2, 2, [1.0, 2.0, 3.0, 4.0])) == Matrix(2, 2, [4.0, -2.0, -3.0, 1.0])
  {
    Get2(Matrix(2, 2, [1.0, 2.0, 3.0, 4.0]));
  }

  /** Cofactor (i, j) of a 3 x 3 matrix: the signed determinant of the
      2 x 2 matrix left after removing row i (leaving rows r0 < r1) and
      column j (leaving columns c0 < c1). */
  lemma Cofactor3(m: Mat, i: nat, j: nat, r0: nat, r1: nat, c0: nat, c1: nat)
    requires IsSquare(m) && m.rows == 3 && i < 3 && j < 3
    requires r0 == Skip(0, i) && r1 == Skip(1, i) && c0 == Skip(0, j) && c1 == Skip(1, j)
    ensures Cofactor(m, i, j) == Signed(i + j, Get(m, r0, c0) * Get(m, r1, c1) - Get(m, r0, c1) * Get(m, r1, c0))
  {
    var M := Minor(m, i, j);
    assert Det(M) == Get(M, 0, 0) * Get(M, 1, 1) - Get(M, 0, 1) * Get(M, 1, 0);
    SignedIsSign(i + j, Det(M));
  }

  /** A 3 x 3 matrix whose element (i, j) is cofactor (j, i) of m is the adjugate of m. */
  lemma IsAdjugate3(m: Mat, a: Mat)
    requires IsSquare(m) && m.rows == 3 && SameShape(a, m)
    requires Get(a, 0, 0) == Cofactor(m, 0, 0)
    requires Get(a, 0, 1) == Cofactor(m, 1, 0)
    requires Get(a, 0, 2) == Cofactor(m, 2, 0)
    requires Get(a, 1, 0) == Cofactor(m, 0, 1)
    requires Get(a, 1, 1) == Cofactor(m, 1, 1)
    requires Get(a, 1, 2) == Cofactor(m, 2, 1)
    requires Get(a, 2, 0) == Cofactor(m, 0, 2)
    requires Get(a, 2, 1) == Cofactor(m, 1, 2)
    requires Get(a, 2, 2) == Cofactor(m, 2, 2)
    ensures Adjugate(m) == a
  {
    AdjugateIsCofactors(m);
    forall i: nat, j: nat | i < 3 && j < 3
      ensures Get(Adjugate(m), i, j) == Get(a, i, j)
    {
      assert i == 0 || i == 1 || i == 2;
      assert j == 0 || j == 1 || j == 2;
    }
    Ext(Adjugate(m), a);
  }

  /** The adjugate of {1, 2, 3, 4, 5, 6, 7, 8, 9} is {-3, 6, -3, 6, -12, 6, -3, 6, -3}. */
  lemma Adjugate3Example()
    ensures Adjugate(Matrix(3, 3, [1.0, 2.0, 3.0, 4.0, 5.0, 6.0, 7.0, 8.0, 9.0]))
         == Matrix(3, 3, [-3.0, 6.0, -3.0, 6.0, -12.0, 6.0, -3.0, 6.0, -3.0])
  {
    var m, e := Matrix(3, 3, [1.0, 2.0, 3.0, 4.0, 5.0, 6.0, 7.0, 8.0, 9.0]), Matrix(3, 3, [-3.0, 6.0, -3.0, 6.0, -12.0, 6.0, -3.0, 6.0, -3.0]);
    Get3(m);
    Get3(e);
    assert Get(e, 0, 0) == Cofactor(m, 0, 0) by { Cofactor3(m, 0, 0, 1, 2, 1, 2); }
    assert Get(e, 0, 1) == Cofactor(m, 1, 0) by { Cofactor3(m, 1, 0, 0, 2, 1, 2); }
    assert Get(e, 0, 2) == Cofactor(m, 2, 0) by { Cofactor3(m, 2, 0, 0, 1, 1, 2); }
    assert Get(e, 1, 0) == Cofactor(m, 0, 1) by { Cofactor3(m, 0, 1, 1, 2, 0, 2); }
    assert Get(e, 1, 1) == Cofactor(m, 1, 1) by { Cofactor3(m, 1, 1, 0, 2, 0, 2); }
    assert Get(e, 1, 2) == Cofactor(m, 2, 1) by { Cofactor3(m, 2, 1, 0, 1, 0, 2); }
    assert Get(e, 2, 0) == Cofactor(m, 0, 2) by { Cofactor3(m, 0, 2, 1, 2, 0, 1); }
    assert Get(e, 2, 1) == Cofactor(m, 1, 2) by { Cofactor3(m, 1, 2, 0, 2, 0, 1); }
    assert Get(e, 2, 2) == Cofactor(m, 2, 2) by { Cofactor3(m, 2, 2, 0, 1, 0, 1); }
    IsAdjugate3(m, e);
  }

  /** The adjugate of {1, 2, 3, 3, 2, 1, 1, 3, 2} is {1, 5, -4, -5, -1, 8, 7, -1, -4}. */
  lemma Adjugate3Inverse()
    ensures Adjugate(Matrix(3, 3, [1.0, 2.0, 3.0, 3.0, 2.0, 1.0, 1.0, 3.0, 2.0]))
         == Matrix(3, 3, [1.0, 5.0, -4.0, -5.0, -1.0, 8.0, 7.0, -1.0, -4.0])
  {
    var m, a := Matrix(3, 3, [1.0, 2.0, 3.0, 3.0, 2.0, 1.0, 1.0, 3.0, 2.0]), Matrix(3, 3, [1.0, 5.0, -4.0, -5.0, -1.0, 8.0, 7.0, -1.0, -4.0]);
    Get3(m);
    Get3(a);
    assert Get(a, 0, 0) == Cofactor(m, 0, 0) by { Cofactor3(m, 0, 0, 1, 2, 1, 2); }
    assert Get(a, 0, 1) == Cofactor(m, 1, 0) by { Cofactor3(m, 1, 0, 0, 2, 1, 2); }
    assert Get(a, 0, 2) == Cofactor(m, 2, 0) by { Cofactor3(m, 2, 0, 0, 1, 1, 2); }
    assert Get(a, 1, 0) == Cofactor(m, 0, 1) by { Cofactor3(m, 0, 1, 1, 2, 0, 2); }
    assert Get(a, 1, 1) == Cofactor(m, 1, 1) by { Cofactor3(m, 1, 1, 0, 2, 0, 2); }
    assert Get(a, 1, 2) == Cofactor(m, 2, 1) by { Cofactor3(m, 2, 1, 0, 1, 0, 2); }
    assert Get(a, 2, 0) == Cofactor(m, 0, 2) by { Cofactor3(m, 0, 2, 1, 2, 0, 1); }
    assert Get(a, 2, 1) == Cofactor(m, 1, 2) by { Cofactor3(m, 1, 2, 0, 2, 0, 1); }
    assert Get(a, 2, 2) == Cofactor(m, 2, 2) by { Cofactor3(m, 2, 2, 0, 1, 0, 1); }
    IsAdjugate3(m, a);
  }

  /** {1, 5, -4, -5, -1, 8, 7, -1, -4} divided by 12. */
  lemma Divide3Inverse()
    ensures Div(Matrix(3, 3, [1.0, 5.0, -4.0, -5.0, -1.0, 8.0, 7.0, -1.0, -4.0]), 12.0)
         == Matrix(3, 3, [1.0 / 12.0, 5.0 / 12.0, -1.0 / 3.0, -5.0 / 12.0, -1.0 / 12.0, 2.0 / 3.0, 7.0 / 12.0, -1.0 / 12.0, -1.0 / 3.0])
  {
    var a := Matrix(3, 3, [1.0, 5.0, -4.0, -5.0, -1.0, 8.0, 7.0, -1.0, -4.0]);
    var r := Matrix(3, 3, [1.0 / 12.0, 5.0 / 12.0, -1.0 / 3.0, -5.0 / 12.0, -1.0 / 12.0, 2.0 / 3.0, 7.0 / 12.0, -1.0 / 12.0, -1.0 / 3.0]);
    var q := Div(a, 12.0);
    Get3(a);
    Get3(q);
    Get3(r);
    Ext(q, r);
  }

  /** The inverse of {1, 2, 3, 3, 2, 1, 1, 3, 2} is its adjugate divided by its determinant 12. */
  lemma Inverse3Example()
    ensures Inverse(Matrix(3, 3, [1.0, 2.0, 3.0, 3.0, 2.0, 1.0, 1.0, 3.0, 2.0]))
         == Ok(Matrix(3, 3, [1.0 / 12.0, 5.0 / 12.0, -1.0 / 3.0, -5.0 / 12.0, -1.0 / 12.0, 2.0 / 3.0, 7.0 / 12.0, -1.0 / 12.0, -1.0 / 3.0]))
  {
    var m := Matrix(3, 3, [1.0, 2.0, 3.0, 3.0, 2.0, 1.0, 1.0, 3.0, 2.0]);
    Get3(m);
    assert Det(m) == 12.0;
    Adjugate3Inverse();
    Divide3Inverse();
  }

  /** The inverse of {1, 2, 3, 4} is {-2, 1, 1.5, -0.5}; the zero matrix has none. */
  lemma InverseExamples()
    ensures Inverse(Matrix(2, 2, [1.0, 2.0, 3.0, 4.0])) == Ok(Matrix(2, 2, [-2.0, 1.0, 1.5, -0.5]))
    ensures Inverse(Matrix(2, 2, [0.0, 0.0, 0.0, 0.0])) == PreconditionViolation
  {
    var m := Matrix(2, 2, [1.0, 2.0, 3.0, 4.0]);
    Get2(m);
    Get2(Matrix(2, 2, [0.0, 0.0, 0.0, 0.0]));
    AdjugateExample();
    assert Det(m) == -2.0;
    var q, r := Div(Adjugate(m), -2.0), Matrix(2, 2, [-2.0, 1.0, 1.5, -0.5]);
    Get2(q);
    Get2(r);
    assert q.elements == r.elements;
  }

  /** Reducing {1, 2, 3, 4, 5, 6, 7, 8, 9} at (1, 1) leaves {1, 3, 7, 9}. */
  lemma ReduceExample()
    ensures Reduce(Matrix(3, 3, [1.0, 2.0, 3.0, 4.0, 5.0, 6.0, 7.0, 8.0, 9.0]), 1, 1)
         == Ok(Matrix(2, 2, [1.0, 3.0, 7.0, 9.0]))
  {
    var m, r := Matrix(3, 3, [1.0, 2.0, 3.0, 4.0, 5.0, 6.0, 7.0, 8.0, 9.0]), Matrix(2, 2, [1.0, 3.0, 7.0, 9.0]);
    Get3(m);
    Get2(r);
    var q := Reduce(m, 1, 1).value;
    Get2(q);
    Ext(q, r);
  }

  /** The trace of {2, 3, -5, 1, -3, 4, 7, 2, 9} is 8. */
  lemma TraceExample()
    ensures Trace(Matrix(3, 3, [2.0, 3.0, -5.0, 1.0, -3.0, 4.0, 7.0, 2.0, 9.0])) == 8.0
  {
    var m := Matrix(3, 3, [2.0, 3.0, -5.0, 1.0, -3.0, 4.0, 7.0, 2.0, 9.0]);
    Get3(m);
    var d := Diag(m);
    assert Sum(3, d) == d(0) + d(1) + d(2);
  }

  /** The square norm of {3, 4, 12} is 169, and dividing by 13 normalizes it. */
  lemma NormExample()
    ensures SquareNorm(Matrix(3, 1, [3.0, 4.0, 12.0])) == 169.0
    ensures Normalized(Matrix(3, 1, [3.0, 4.0, 12.0]), 13.0) == Ok(Div(Matrix(3, 1, [3.0, 4.0, 12.0]), 13.0))
  {
    var s := [3.0, 4.0, 12.0];
    assert s[..2] == [3.0, 4.0] && s[..2][..1] == [3.0] && s[..2][..1][..0] == [];
    assert SumSquares([3.0]) == 9.0;
    assert SumSquares([3.0, 4.0]) == 25.0;
    assert SumSquares(s) == 169.0;
    assert Square(13.0) == 169.0;
  }
}
