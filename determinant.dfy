/** `det`, `adjugate` and `inverse` of square matrices. The determinant of a
    matrix is the cofactor expansion of its entries (module Laplace), which
    gives m * adjugate(m) = det(m) * identity and so m * inverse(m) = identity. */
module Determinants {
  import opened Sums
  import opened Checked
  import opened Matrices
  import opened Laplace

  /** The entries of m, as read by the cofactor expansion. */
  function EntriesOf(m: Mat): Entries
  {
    (i: nat, j: nat) => Get(m, i, j)
  }

  /** `det(m)`: a closed form for the sizes 1, 2 and 3, and the cofactor
      expansion along the first row above 3. */
  function Det(m: Mat): real
    requires IsSquare(m) && m.rows >= 1
  {
    if m.rows == 1 then Get(m, 0, 0)
    else if m.rows == 2 then Get(m, 0, 0) * Get(m, 1, 1) - Get(m, 0, 1) * Get(m, 1, 0)
    else if m.rows == 3 then
      Get(m, 0, 0) * (Get(m, 1, 1) * Get(m, 2, 2) - Get(m, 1, 2) * Get(m, 2, 1))
      - Get(m, 0, 1) * (Get(m, 1, 0) * Get(m, 2, 2) - Get(m, 1, 2) * Get(m, 2, 0))
      + Get(m, 0, 2) * (Get(m, 1, 0) * Get(m, 2, 1) - Get(m, 1, 1) * Get(m, 2, 0))
    else Expand(m.rows, EntriesOf(m))
  }

  /** Every size's closed form is the cofactor expansion of the entries. */
  lemma DetIsExpansion(m: Mat)
    requires IsSquare(m) && m.rows >= 1
    ensures Det(m) == Expand(m.rows, EntriesOf(m))
  {
    var F := EntriesOf(m);
    if m.rows == 1 {
      assert F(0, 0) == Get(m, 0, 0);
    } else if m.rows == 2 {
      Expand2(F);
      assert F(0, 0) == Get(m, 0, 0) && F(0, 1) == Get(m, 0, 1);
      assert F(1, 0) == Get(m, 1, 0) && F(1, 1) == Get(m, 1, 1);
    } else if m.rows == 3 {
      Expand3(F);
      assert F(0, 0) == Get(m, 0, 0) && F(0, 1) == Get(m, 0, 1) && F(0, 2) == Get(m, 0, 2);
      assert F(1, 0) == Get(m, 1, 0) && F(1, 1) == Get(m, 1, 1) && F(1, 2) == Get(m, 1, 2);
      assert F(2, 0) == Get(m, 2, 0) && F(2, 1) == Get(m, 2, 1) && F(2, 2) == Get(m, 2, 2);
    }
  }

  /** The signed determinant of `reduce(m, i, j)`. */
  function Cofactor(m: Mat, i: nat, j: nat): real
    requires IsSquare(m) && m.rows >= 2
  {
    Sign(i + j) * Det(Minor(m, i, j))
  }

  lemma CofactorIsCof(m: Mat, i: nat, j: nat)
    requires IsSquare(m) && m.rows >= 2
    ensures Cofactor(m, i, j) == Cof(m.rows, EntriesOf(m), i, j)
  {
    var M := Minor(m, i, j);
    DetIsExpansion(M);
    var A, B := EntriesOf(M), MinorOf(EntriesOf(m), i, j);
    forall r: nat, c: nat | r < m.rows - 1 && c < m.rows - 1
      ensures A(r, c) == B(r, c)
    {
      assert A(r, c) == Get(M, r, c);
    }
    ExpandCongruent(m.rows - 1, A, B);
  }

  /** `adjugate(m)`: the identity for 1 x 1, the closed form for 2 x 2, and
      the transposed matrix of cofactors above. */
  function Adjugate(m: Mat): (a: Mat)
    requires IsSquare(m) && m.rows >= 1
    ensures SameShape(a, m)
    ensures m.rows == 1 ==> a == Identity(1)
  {
    if m.rows == 1 then Identity(1)
    else if m.rows == 2 then Matrix(2, 2, [Get(m, 1, 1), -Get(m, 0, 1), -Get(m, 1, 0), Get(m, 0, 0)])
    else Build(m.rows, m.rows, (i: nat, j: nat) => Cofactor(m, j, i))
  }

  /** The cofactors of a 2 x 2 matrix are its opposite elements, signed. */
  lemma Cofactor2(m: Mat, i: nat, j: nat)
    requires IsSquare(m) && m.rows == 2 && i < 2 && j < 2
    ensures Cofactor(m, i, j) == Sign(i + j) * Get(m, 1 - i, 1 - j)
  {
    var M := Minor(m, i, j);
    assert Skip(0, i) == 1 - i && Skip(0, j) == 1 - j;
    assert Det(M) == Get(M, 0, 0) == Get(m, 1 - i, 1 - j);
  }

  /** Element (i, j) of the 2 x 2 closed form is the cofactor (j, i). */
  lemma Adjugate2Element(m: Mat, i: nat, j: nat)
    requires IsSquare(m) && m.rows == 2 && i < 2 && j < 2
    ensures Get(Adjugate(m), i, j) == Cofactor(m, j, i)
  {
    var a := Adjugate(m);
    assert a.elements == [Get(m, 1, 1), -Get(m, 0, 1), -Get(m, 1, 0), Get(m, 0, 0)];
    assert Offset(2, i, j) == 2 * i + j by { OffsetIsRowMajor(2, i, j); }
    Cofactor2(m, j, i);
    assert Sign(0) == 1.0 && Sign(1) == -1.0 && Sign(2) == 1.0;
  }

  /** Whatever the size above 1, element (i, j) of the adjugate is the cofactor (j, i). */
  lemma AdjugateIsCofactors(m: Mat)
    requires IsSquare(m) && m.rows >= 2
    ensures forall i: nat, j: nat :: i < m.rows && j < m.rows ==> Get(Adjugate(m), i, j) == Cofactor(m, j, i)
  {
    if m.rows == 2 {
      forall i: nat, j: nat | i < 2 && j < 2
        ensures Get(Adjugate(m), i, j) == Cofactor(m, j, i)
      {
        Adjugate2Element(m, i, j);
      }
    }
  }

  /** The j-th term of row i of m against column k of a matrix whose
      element (j, k) is the cofactor (k, j) of entries F that agree with m. */
  lemma CofactorColumnTerm(m: Mat, a: Mat, F: Entries, i: nat, k: nat, j: nat)
    requires m.rows >= 2 && F(i, j) == Get(m, i, j) && Get(a, j, k) == Cof(m.rows, F, k, j)
    ensures RowCol(m, a, i, k)(j) == CrossTerms(m.rows, F, i, k)(j)
  {
    RowColTerm(m, a, i, k, j);
    CrossTermIs(m.rows, F, i, k, j, Get(m, i, j), Get(a, j, k));
  }

  /** Element (i, k) of m * adjugate(m) is row i of m against the cofactors of row k. */
  lemma MulAdjugateElement(m: Mat, i: nat, k: nat)
    requires IsSquare(m) && m.rows >= 2 && i < m.rows && k < m.rows
    ensures Get(Mul(m, Adjugate(m)), i, k) == if i == k then Det(m) else 0.0
  {
    var n, F, a := m.rows, EntriesOf(m), Adjugate(m);
    AdjugateIsCofactors(m);
    var T, U := RowCol(m, a, i, k), CrossTerms(n, F, i, k);
    forall j | 0 <= j < n
      ensures T(j) == U(j)
    {
      CofactorIsCof(m, k, j);
      assert F(i, j) == Get(m, i, j);
      CofactorColumnTerm(m, a, F, i, k, j);
    }
    SumExt(n, T, U);
    CrossExpansion(n, F, i, k);
    DetIsExpansion(m);
  }

  /** m * adjugate(m) = det(m) * identity. */
  lemma MulAdjugate(m: Mat)
    requires IsSquare(m) && m.rows >= 1
    ensures Mul(m, Adjugate(m)) == Scale(Identity(m.rows), Det(m))
  {
    var p, q := Mul(m, Adjugate(m)), Scale(Identity(m.rows), Det(m));
    if m.rows == 1 {
      MulIdentity(m);
      assert Get(p, 0, 0) == Get(q, 0, 0);
    } else {
      forall i: nat, k: nat | i < m.rows && k < m.rows
        ensures Get(p, i, k) == Get(q, i, k)
      {
        MulAdjugateElement(m, i, k);
      }
    }
    Ext(p, q);
  }

  /** `inverse(m)`: the adjugate divided by the determinant; a precondition
      violation when the determinant is zero. */
  function Inverse(m: Mat): (r: Checked<Mat>)
    requires IsSquare(m) && m.rows >= 1
    ensures r.Ok? <==> Det(m) != 0.0
    ensures r.Ok? ==> SameShape(r.value, m)
  {
    if Det(m) == 0.0 then PreconditionViolation else Ok(Div(Adjugate(m), Det(m)))
  }

  /** A successful inverse is a right inverse. */
  lemma InverseIsInverse(m: Mat)
    requires IsSquare(m) && m.rows >= 1 && Inverse(m).Ok?
    ensures Mul(m, Inverse(m).value) == Identity(m.rows)
  {
    var d, a, id := Det(m), Adjugate(m), Identity(m.rows);
    DivScaleCancel(a, d);
    MulScaleRight(m, a, 1.0 / d);
    MulAdjugate(m);
    DivScaleCancel(Scale(id, d), d);
    DivScaleCancel(id, d);
  }
}
