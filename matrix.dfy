/** The value semantics of `hou::matrix<T, Rows, Cols>`: a fixed-size matrix
    whose `Rows * Cols` elements are stored row after row in one flat array.
    Scalars are Dafny `real`s, so every operation is exact. */
module Matrices {
  import opened Sums
  import opened Checked

  datatype Matrix = Matrix(rows: nat, cols: nat, elements: seq<real>)

  /** A well-formed matrix: the flat element array has exactly rows * cols
      slots (see `SizeIsProduct`). */
  type Mat = m: Matrix | |m.elements| == Size(m.rows, m.cols) witness Matrix(0, 0, [])

  predicate SameShape(a: Mat, b: Mat)
  {
    a.rows == b.rows && a.cols == b.cols
  }

  predicate IsSquare(m: Mat)
  {
    m.rows == m.cols
  }

  // ---------------------------------------------------------------------
  // Row-major layout. Sizes and positions are counted row by row, so that
  // the proofs about elements need no multiplication of integers.

  /** The number of elements of an r x c matrix. */
  function Size(r: nat, c: nat): nat
  {
    if r == 0 then 0 else Size(r - 1, c) + c
  }

  lemma {:induction false} SizeIsProduct(r: nat, c: nat)
    ensures Size(r, c) == r * c
  {
    if r > 0 {
      SizeIsProduct(r - 1, c);
    }
  }

  lemma {:induction false} SizeMonotone(a: nat, b: nat, c: nat)
    requires a <= b
    ensures Size(a, c) <= Size(b, c)
  {
    if a < b {
      SizeMonotone(a, b - 1, c);
    }
  }

  /** The flat position of element (i, j) when rows have c elements: the i
      rows before it, then j more. */
  function Offset(c: nat, i: nat, j: nat): nat
  {
    Size(i, c) + j
  }

  lemma OffsetIsRowMajor(c: nat, i: nat, j: nat)
    ensures Offset(c, i, j) == i * c + j
  {
    SizeIsProduct(i, c);
  }

  /** The row and the column of flat position k when rows have c > 0
      elements: k = Offset(c, RowOf(k, c), ColOf(k, c)). */
  function RowOf(k: nat, c: nat): nat
    requires c > 0
  {
    if k < c then 0 else 1 + RowOf(k - c, c)
  }

  function ColOf(k: nat, c: nat): nat
    requires c > 0
  {
    if k < c then k else ColOf(k - c, c)
  }

  lemma {:induction false} OffsetRowCol(c: nat, i: nat, j: nat)
    requires j < c
    ensures RowOf(Offset(c, i, j), c) == i && ColOf(Offset(c, i, j), c) == j
  {
    if i > 0 {
      OffsetRowCol(c, i - 1, j);
    }
  }

  /** Every element of an r x c matrix has a position inside the flat array ... */
  lemma OffsetBound(r: nat, c: nat, i: nat, j: nat)
    requires i < r && j < c
    ensures Offset(c, i, j) < Size(r, c)
  {
    SizeMonotone(i + 1, r, c);
  }

  /** ... no two elements share one ... */
  lemma OffsetInjective(c: nat, i: nat, j: nat, i': nat, j': nat)
    requires j < c && j' < c && Offset(c, i, j) == Offset(c, i', j')
    ensures i == i' && j == j'
  {
    if i < i' {
      SizeMonotone(i + 1, i', c);
    } else if i' < i {
      SizeMonotone(i' + 1, i, c);
    }
  }

  /** ... and every position belongs to an element. */
  lemma {:induction false} Unflatten(r: nat, c: nat, k: nat) returns (i: nat, j: nat)
    requires k < Size(r, c)
    ensures i < r && j < c && Offset(c, i, j) == k
  {
    if k < Size(r - 1, c) {
      i, j := Unflatten(r - 1, c, k);
    } else {
      i, j := r - 1, k - Size(r - 1, c);
    }
  }

  // ---------------------------------------------------------------------
  // Elements by coordinates

  /** Element (i, j); zero outside the matrix, so that it can appear in the
      terms of a sum. */
  function Get(m: Matrix, i: nat, j: nat): real
  {
    if i < m.rows && j < m.cols && Offset(m.cols, i, j) < |m.elements| then m.elements[Offset(m.cols, i, j)] else 0.0
  }

  /** The r x c matrix whose element (i, j) is f(i, j). */
  function Build(r: nat, c: nat, f: (nat, nat) -> real): (m: Mat)
    ensures m.rows == r && m.cols == c
    ensures forall i: nat, j: nat :: i < r && j < c ==> Get(m, i, j) == f(i, j)
  {
    forall i: nat, j: nat | i < r && j < c
      ensures Offset(c, i, j) < Size(r, c) && RowOf(Offset(c, i, j), c) == i && ColOf(Offset(c, i, j), c) == j
    {
      OffsetBound(r, c, i, j);
      OffsetRowCol(c, i, j);
    }
    if c == 0 then Matrix(r, 0, seq(Size(r, 0), _ => 0.0))
    else Matrix(r, c, seq(Size(r, c), k requires 0 <= k < Size(r, c) => f(RowOf(k, c), ColOf(k, c))))
  }

  /** Two matrices of the same shape that agree on every element are the same matrix. */
  lemma Ext(a: Mat, b: Mat)
    requires SameShape(a, b)
    requires forall i: nat, j: nat :: i < a.rows && j < a.cols ==> Get(a, i, j) == Get(b, i, j)
    ensures a == b
  {
    forall k | 0 <= k < |a.elements|
      ensures a.elements[k] == b.elements[k]
    {
      var i, j := Unflatten(a.rows, a.cols, k);
      assert Get(a, i, j) == Get(b, i, j);
    }
  }

  // ---------------------------------------------------------------------
  // Element access (matrix.hpp operator[] and operator())

  /** The bounds-checked `operator()(index)`. */
  function ElementAt(m: Mat, index: nat): (r: Checked<real>)
    ensures r.Ok? <==> index < m.rows * m.cols
    ensures r.Ok? ==> index < |m.elements| && r.value == m.elements[index]
  {
    SizeIsProduct(m.rows, m.cols);
    if index < |m.elements| then Ok(m.elements[index]) else PreconditionViolation
  }

  /** The bounds-checked `operator()(row, col)`: it fails unless both
      coordinates are in range, and then it reads flat element row * Cols + col. */
  function ElementAtRC(m: Mat, row: nat, col: nat): (r: Checked<real>)
    ensures r.Ok? <==> row < m.rows && col < m.cols
    ensures r.Ok? ==> r == ElementAt(m, row * m.cols + col) && r.value == Get(m, row, col)
  {
    if row < m.rows && col < m.cols then
      OffsetBound(m.rows, m.cols, row, col);
      OffsetIsRowMajor(m.cols, row, col);
      Ok(m.elements[row * m.cols + col])
    else PreconditionViolation
  }

  /** The matrix after writing x through the flat reference `operator[](index)`. */
  function WithElement(m: Mat, index: nat, x: real): (r: Mat)
    requires index < |m.elements|
    ensures SameShape(r, m)
    ensures r.elements[index] == x
    ensures forall k :: 0 <= k < |m.elements| && k != index ==> r.elements[k] == m.elements[k]
  {
    m.(elements := m.elements[index := x])
  }

  /** A write through flat index row * Cols + col is seen by the coordinate
      access at (row, col) and by no other coordinate access. */
  lemma WriteVisibleByCoordinates(m: Mat, row: nat, col: nat, x: real, i: nat, j: nat)
    requires row < m.rows && col < m.cols && i < m.rows && j < m.cols
    ensures row * m.cols + col < |m.elements|
    ensures Get(WithElement(m, row * m.cols + col, x), i, j) == if i == row && j == col then x else Get(m, i, j)
  {
    OffsetBound(m.rows, m.cols, row, col);
    OffsetIsRowMajor(m.cols, row, col);
    if Offset(m.cols, i, j) == Offset(m.cols, row, col) {
      OffsetInjective(m.cols, i, j, row, col);
    }
  }

  // ---------------------------------------------------------------------
  // Construction

  /** `zero()` and the default constructor. */
  function Zero(r: nat, c: nat): (z: Mat)
    ensures z.rows == r && z.cols == c
    ensures forall k :: 0 <= k < |z.elements| ==> z.elements[k] == 0.0
  {
    Filled(r, c, 0.0)
  }

  /** `filled(value)`. */
  function Filled(r: nat, c: nat, x: real): (f: Mat)
    ensures f.rows == r && f.cols == c
    ensures forall k :: 0 <= k < |f.elements| ==> f.elements[k] == x
  {
    Matrix(r, c, seq(Size(r, c), _ => x))
  }

  /** `identity()`: ones on the diagonal, zeros elsewhere. */
  function Identity(n: nat): (id: Mat)
    ensures id.rows == n && id.cols == n
    ensures forall i: nat, j: nat :: i < n && j < n ==> Get(id, i, j) == if i == j then 1.0 else 0.0
  {
    Build(n, n, (i: nat, j: nat) => if i == j then 1.0 else 0.0)
  }

  /** `diagonal(elements)`: the column vector v on the diagonal, zeros elsewhere. */
  function Diagonal(v: Mat): (d: Mat)
    requires v.cols == 1
    ensures d.rows == v.rows && d.cols == v.rows
    ensures forall i: nat, j: nat :: i < v.rows && j < v.rows ==> Get(d, i, j) == if i == j then Get(v, i, 0) else 0.0
  {
    Build(v.rows, v.rows, (i: nat, j: nat) => if i == j then Get(v, i, 0) else 0.0)
  }

  /** The initializer-list constructor: it takes the elements in row-major
      order and fails unless there are exactly rows * cols of them. */
  function FromList(r: nat, c: nat, xs: seq<real>): (m: Checked<Mat>)
    ensures m.Ok? <==> |xs| == r * c
    ensures m.Ok? ==> m.value.rows == r && m.value.cols == c && m.value.elements == xs
  {
    SizeIsProduct(r, c);
    if |xs| == Size(r, c) then Ok(Matrix(r, c, xs)) else PreconditionViolation
  }

  // ---------------------------------------------------------------------
  // Element-wise arithmetic

  /** `lhs + rhs`, element by element. */
  function Add(a: Mat, b: Mat): (s: Mat)
    requires SameShape(a, b)
    ensures SameShape(s, a)
    ensures forall i: nat, j: nat :: Get(s, i, j) == Get(a, i, j) + Get(b, i, j)
  {
    Matrix(a.rows, a.cols, seq(|a.elements|, k requires 0 <= k < |a.elements| => a.elements[k] + b.elements[k]))
  }

  /** `lhs - rhs`, element by element. */
  function Sub(a: Mat, b: Mat): (d: Mat)
    requires SameShape(a, b)
    ensures SameShape(d, a)
    ensures forall i: nat, j: nat :: Get(d, i, j) == Get(a, i, j) - Get(b, i, j)
  {
    Matrix(a.rows, a.cols, seq(|a.elements|, k requires 0 <= k < |a.elements| => a.elements[k] - b.elements[k]))
  }

  /** Unary minus: every element negated. */
  function Negated(m: Mat): (n: Mat)
    ensures SameShape(n, m)
    ensures forall i: nat, j: nat :: Get(n, i, j) == -Get(m, i, j)
  {
    Matrix(m.rows, m.cols, seq(|m.elements|, k requires 0 <= k < |m.elements| => -m.elements[k]))
  }

  /** `m * s`, `s * m` and `m *= s`: every element multiplied by s. */
  function Scale(m: Mat, s: real): (p: Mat)
    ensures SameShape(p, m)
    ensures forall i: nat, j: nat :: Get(p, i, j) == Get(m, i, j) * s
  {
    Matrix(m.rows, m.cols, seq(|m.elements|, k requires 0 <= k < |m.elements| => m.elements[k] * s))
  }

  /** `m / s` and `m /= s`: every element divided by s. */
  function Div(m: Mat, s: real): (q: Mat)
    requires s != 0.0
    ensures SameShape(q, m)
    ensures forall i: nat, j: nat :: Get(q, i, j) == Get(m, i, j) / s
  {
    Matrix(m.rows, m.cols, seq(|m.elements|, k requires 0 <= k < |m.elements| => m.elements[k] / s))
  }

  lemma {:induction false} AddZero(m: Mat)
    ensures Add(m, Zero(m.rows, m.cols)) == m
  {
    var z := Zero(m.rows, m.cols);
    forall i: nat, j: nat | i < m.rows && j < m.cols
      ensures Get(Add(m, z), i, j) == Get(m, i, j)
    {
      assert Get(z, i, j) == 0.0;
    }
    Ext(Add(m, z), m);
  }

  lemma AddCommutes(a: Mat, b: Mat)
    requires SameShape(a, b)
    ensures Add(a, b) == Add(b, a)
  {
    Ext(Add(a, b), Add(b, a));
  }

  /** Subtraction undoes addition. */
  lemma SubAddCancel(a: Mat, b: Mat)
    requires SameShape(a, b)
    ensures Sub(Add(a, b), b) == a
    ensures Add(Sub(a, b), b) == a
  {
    Ext(Sub(Add(a, b), b), a);
    Ext(Add(Sub(a, b), b), a);
  }

  /** `a - b` is `a + (-b)`, and the opposite is the product by -1. */
  lemma SubIsAddNegated(a: Mat, b: Mat)
    requires SameShape(a, b)
    ensures Sub(a, b) == Add(a, Negated(b))
    ensures Negated(b) == Scale(b, -1.0)
  {
    Ext(Sub(a, b), Add(a, Negated(b)));
    Ext(Negated(b), Scale(b, -1.0));
  }

  lemma NegatedTwice(m: Mat)
    ensures Negated(Negated(m)) == m
  {
    Ext(Negated(Negated(m)), m);
  }

  /** Division by s undoes multiplication by s. */
  lemma DivScaleCancel(m: Mat, s: real)
    requires s != 0.0
    ensures Div(Scale(m, s), s) == m
    ensures Div(m, s) == Scale(m, 1.0 / s)
  {
    Ext(Div(Scale(m, s), s), m);
    Ext(Div(m, s), Scale(m, 1.0 / s));
  }

  // ---------------------------------------------------------------------
  // Row-column product

  /** The terms of the dot product of row i of a with column j of b. */
  function RowCol(a: Mat, b: Mat, i: nat, j: nat): nat -> real
  {
    (k: nat) => Get(a, i, k) * Get(b, k, j)
  }

  lemma RowColTerm(a: Mat, b: Mat, i: nat, j: nat, k: nat)
    ensures RowCol(a, b, i, j)(k) == Get(a, i, k) * Get(b, k, j)
  {
  }

  /** `lhs * rhs` for a Rows x Mid and a Mid x Cols matrix. */
  function Mul(a: Mat, b: Mat): (p: Mat)
    requires a.cols == b.rows
    ensures p.rows == a.rows && p.cols == b.cols
    ensures forall i: nat, j: nat :: i < a.rows && j < b.cols ==> Get(p, i, j) == Sum(a.cols, RowCol(a, b, i, j))
  {
    Build(a.rows, b.cols, (i: nat, j: nat) => Sum(a.cols, RowCol(a, b, i, j)))
  }

  /** The identity is neutral on both sides of the product. */
  lemma MulIdentity(m: Mat)
    ensures Mul(Identity(m.rows), m) == m
    ensures Mul(m, Identity(m.cols)) == m
  {
    var id := Identity(m.rows);
    forall i: nat, j: nat | i < m.rows && j < m.cols
      ensures Get(Mul(id, m), i, j) == Get(m, i, j)
    {
      SumSingle(m.rows, RowCol(id, m, i, j), i);
    }
    Ext(Mul(id, m), m);
    var id' := Identity(m.cols);
    forall i: nat, j: nat | i < m.rows && j < m.cols
      ensures Get(Mul(m, id'), i, j) == Get(m, i, j)
    {
      SumSingle(m.cols, RowCol(m, id', i, j), j);
    }
    Ext(Mul(m, id'), m);
  }

  /** A scalar factor on column j of the right operand moves out of each
      term of the product. */
  lemma RowColScale(a: Mat, b: Mat, c: Mat, s: real, i: nat, j: nat, k: nat)
    requires Get(c, k, j) == Get(b, k, j) * s
    ensures RowCol(a, c, i, j)(k) == Scaled(s, RowCol(a, b, i, j))(k)
  {
    var x, y := Get(a, i, k), Get(b, k, j);
    assert x * (y * s) == s * (x * y);
  }

  lemma RowColScaledTerms(a: Mat, b: Mat, c: Mat, s: real, i: nat, j: nat)
    requires forall k: nat :: Get(c, k, j) == Get(b, k, j) * s
    ensures forall k :: 0 <= k < a.cols ==> RowCol(a, c, i, j)(k) == Scaled(s, RowCol(a, b, i, j))(k)
  {
    forall k: nat | k < a.cols
      ensures RowCol(a, c, i, j)(k) == Scaled(s, RowCol(a, b, i, j))(k)
    {
      RowColScale(a, b, c, s, i, j, k);
    }
  }

  /** ... and out of their sum. */
  lemma RowColScaledSum(a: Mat, b: Mat, c: Mat, s: real, i: nat, j: nat)
    requires forall k: nat :: Get(c, k, j) == Get(b, k, j) * s
    ensures Sum(a.cols, RowCol(a, c, i, j)) == Sum(a.cols, RowCol(a, b, i, j)) * s
  {
    RowColScaledTerms(a, b, c, s, i, j);
    SumTimes(a.cols, RowCol(a, b, i, j), RowCol(a, c, i, j), s);
  }

  lemma MulScaleRight(a: Mat, b: Mat, s: real)
    requires a.cols == b.rows
    ensures Mul(a, Scale(b, s)) == Scale(Mul(a, b), s)
  {
    var p, q := Mul(a, Scale(b, s)), Scale(Mul(a, b), s);
    forall i: nat, j: nat | i < a.rows && j < b.cols
      ensures Get(p, i, j) == Get(q, i, j)
    {
      RowColScaledSum(a, b, Scale(b, s), s, i, j);
    }
    Ext(p, q);
  }

  // ---------------------------------------------------------------------
  // Transpose and reduce

  /** `transpose(m)`: element (i, j) of the result is element (j, i) of m. */
  function Transpose(m: Mat): (t: Mat)
    ensures t.rows == m.cols && t.cols == m.rows
    ensures forall i: nat, j: nat :: i < m.cols && j < m.rows ==> Get(t, i, j) == Get(m, j, i)
  {
    Build(m.cols, m.rows, (i: nat, j: nat) => Get(m, j, i))
  }

  lemma TransposeTwice(m: Mat)
    ensures Transpose(Transpose(m)) == m
  {
    Ext(Transpose(Transpose(m)), m);
  }

  lemma TransposeIdentity(n: nat)
    ensures Transpose(Identity(n)) == Identity(n)
  {
    Ext(Transpose(Identity(n)), Identity(n));
  }

  /** The transpose of a product is the product of the transposes in reverse order. */
  lemma TransposeMul(a: Mat, b: Mat)
    requires a.cols == b.rows
    ensures Transpose(Mul(a, b)) == Mul(Transpose(b), Transpose(a))
  {
    var ta, tb := Transpose(a), Transpose(b);
    forall i: nat, j: nat | i < b.cols && j < a.rows
      ensures Get(Transpose(Mul(a, b)), i, j) == Get(Mul(tb, ta), i, j)
    {
      SumExt(a.cols, RowCol(a, b, j, i), RowCol(tb, ta, i, j));
    }
    Ext(Transpose(Mul(a, b)), Mul(tb, ta));
  }

  /** The matrix m without row `row` and column `col`. */
  function Minor(m: Mat, row: nat, col: nat): (r: Mat)
    requires m.rows >= 1 && m.cols >= 1
    ensures r.rows == m.rows - 1 && r.cols == m.cols - 1
    ensures forall i: nat, j: nat :: i < m.rows - 1 && j < m.cols - 1 ==> Get(r, i, j) == Get(m, Skip(i, row), Skip(j, col))
  {
    Build(m.rows - 1, m.cols - 1, (i: nat, j: nat) => Get(m, Skip(i, row), Skip(j, col)))
  }

  /** `reduce(m, row, col)`, defined for matrices with more than one row and
      more than one column: it fails unless row and col are in range, and
      otherwise removes that row and that column. */
  function Reduce(m: Mat, row: nat, col: nat): (r: Checked<Mat>)
    requires m.rows > 1 && m.cols > 1
    ensures r.Ok? <==> row < m.rows && col < m.cols
    ensures r.Ok? ==> r.value.rows == m.rows - 1 && r.value.cols == m.cols - 1
    ensures r.Ok? ==> forall i: nat, j: nat :: i < m.rows - 1 && j < m.cols - 1 ==>
      Get(r.value, i, j) == Get(m, if i < row then i else i + 1, if j < col then j else j + 1)
  {
    if row < m.rows && col < m.cols then Ok(Minor(m, row, col)) else PreconditionViolation
  }

  /** Removing row r and column c commutes with transposition. */
  lemma MinorTranspose(m: Mat, r: nat, c: nat)
    requires m.rows >= 1 && m.cols >= 1
    ensures Minor(Transpose(m), c, r) == Transpose(Minor(m, r, c))
  {
    Ext(Minor(Transpose(m), c, r), Transpose(Minor(m, r, c)));
  }

  // ---------------------------------------------------------------------
  // Trace

  function Diag(m: Mat): nat -> real
  {
    (i: nat) => Get(m, i, i)
  }

  /** `trace(m)`: the sum of the diagonal elements of a square matrix. */
  function Trace(m: Mat): real
    requires IsSquare(m)
  {
    Sum(m.rows, Diag(m))
  }

  lemma TraceAdd(a: Mat, b: Mat)
    requires IsSquare(a) && SameShape(a, b)
    ensures Trace(Add(a, b)) == Trace(a) + Trace(b)
  {
    SumAdd(a.rows, Diag(a), Diag(b), Diag(Add(a, b)));
  }

  lemma TraceTranspose(m: Mat)
    requires IsSquare(m)
    ensures Trace(Transpose(m)) == Trace(m)
  {
    SumExt(m.rows, Diag(Transpose(m)), Diag(m));
  }

  lemma TraceIdentity(n: nat)
    ensures Trace(Identity(n)) == n as real
  {
    var d := Diag(Identity(n));
    forall i | 0 <= i < n ensures d(i) == 1.0 {
    }
    SumOnes(n, d);
  }

  /** The terms a(i, k) * b(k, i) that both traces add up. */
  function TraceTerms(a: Mat, b: Mat): (nat, nat) -> real
  {
    (i: nat, k: nat) => Get(a, i, k) * Get(b, k, i)
  }

  lemma TraceAsRowSums(a: Mat, b: Mat)
    requires a.cols == b.rows && a.rows == b.cols
    ensures Trace(Mul(a, b)) == Sum(a.rows, RowSums(TraceTerms(a, b), a.cols))
  {
    forall i: nat | i < a.rows
      ensures Diag(Mul(a, b))(i) == RowSums(TraceTerms(a, b), a.cols)(i)
    {
      SumExt(a.cols, RowCol(a, b, i, i), Row(TraceTerms(a, b), i));
    }
    SumExt(a.rows, Diag(Mul(a, b)), RowSums(TraceTerms(a, b), a.cols));
  }

  lemma TraceAsColSums(a: Mat, b: Mat)
    requires a.cols == b.rows && a.rows == b.cols
    ensures Sum(a.cols, ColSums(TraceTerms(a, b), a.rows)) == Trace(Mul(b, a))
  {
    forall k: nat | k < a.cols
      ensures ColSums(TraceTerms(a, b), a.rows)(k) == Diag(Mul(b, a))(k)
    {
      SumExt(a.rows, Col(TraceTerms(a, b), k), RowCol(b, a, k, k));
    }
    SumExt(a.cols, ColSums(TraceTerms(a, b), a.rows), Diag(Mul(b, a)));
  }

  /** The trace of a product does not depend on the order of the factors. */
  lemma TraceMulCommutes(a: Mat, b: Mat)
    requires a.cols == b.rows && a.rows == b.cols
    ensures Trace(Mul(a, b)) == Trace(Mul(b, a))
  {
    calc {
      Trace(Mul(a, b));
    == { TraceAsRowSums(a, b); }
      Sum(a.rows, RowSums(TraceTerms(a, b), a.cols));
    == { SumSwap(a.rows, a.cols, TraceTerms(a, b)); }
      Sum(a.cols, ColSums(TraceTerms(a, b), a.rows));
    == { TraceAsColSums(a, b); }
      Trace(Mul(b, a));
    }
  }

  // ---------------------------------------------------------------------
  // Norms

  function Square(x: real): real
  {
    x * x
  }

  /** The sum of the squares of a sequence of reals. */
  function SumSquares(s: seq<real>): real
  {
    if s == [] then 0.0 else SumSquares(s[..|s| - 1]) + Square(s[|s| - 1])
  }

  /** `square_norm(m)`: the sum of the squares of all elements. */
  function SquareNorm(m: Mat): (r: real)
    ensures r >= 0.0
  {
    SumSquaresZero(m.elements);
    SumSquares(m.elements)
  }

  /** A sum of squares is never negative, and it is zero exactly when every term is. */
  lemma {:induction false} SumSquaresZero(s: seq<real>)
    ensures SumSquares(s) >= 0.0
    ensures SumSquares(s) == 0.0 <==> forall k :: 0 <= k < |s| ==> s[k] == 0.0
  {
    if s != [] {
      var p := s[..|s| - 1];
      SumSquaresZero(p);
      SquareFacts(s[|s| - 1]);
      if SumSquares(s) == 0.0 {
        assert SumSquares(p) == 0.0;
        SquareFacts(s[|s| - 1]);
        forall k | 0 <= k < |s|
          ensures s[k] == 0.0
        {
          if k < |p| {
            assert s[k] == p[k];
          }
        }
      }
      if forall k :: 0 <= k < |s| ==> s[k] == 0.0 {
        assert forall k :: 0 <= k < |p| ==> p[k] == s[k];
      }
    }
  }

  lemma SquareInverse(s: real)
    requires s != 0.0
    ensures Square(1.0 / s) * Square(s) == 1.0
  {
  }

  /** A square is never negative, and it is zero only for zero. */
  lemma SquareFacts(x: real)
    ensures Square(x) >= 0.0
    ensures Square(x) == 0.0 <==> x == 0.0
  {
    if x != 0.0 {
      SquareInverse(x);
    }
  }

  lemma SquareProduct(x: real, c: real)
    ensures Square(x * c) == Square(c) * Square(x)
  {
  }

  lemma {:induction false} SumSquaresScale(s: seq<real>, c: real, t: seq<real>)
    requires |t| == |s| && forall k :: 0 <= k < |s| ==> t[k] == s[k] * c
    ensures SumSquares(t) == Square(c) * SumSquares(s)
  {
    if s != [] {
      SumSquaresScale(s[..|s| - 1], c, t[..|t| - 1]);
      SquareProduct(s[|s| - 1], c);
    }
  }

  /** The square norm is never negative, and it is zero exactly for the zero matrix. */
  lemma SquareNormZero(m: Mat)
    ensures SquareNorm(m) >= 0.0
    ensures SquareNorm(m) == 0.0 <==> m == Zero(m.rows, m.cols)
  {
    SumSquaresZero(m.elements);
  }

  /** Dividing a matrix by its norm gives a matrix of norm 1. */
  lemma SquareNormDivNorm(m: Mat, norm: real)
    requires norm != 0.0 && Square(norm) == SquareNorm(m)
    ensures SquareNorm(Div(m, norm)) == 1.0
  {
    SumSquaresScale(m.elements, 1.0 / norm, Div(m, norm).elements);
    SquareInverse(norm);
  }

  /** `normalized(m)`. Dafny's reals have no square root, so the norm comes in
      as `norm`, the non-negative number whose square is the square norm. The
      operation fails when the norm is zero, which happens exactly for the zero
      matrix; otherwise it divides m by its norm and the result has norm 1. */
  function Normalized(m: Mat, norm: real): (r: Checked<Mat>)
    requires norm >= 0.0 && Square(norm) == SquareNorm(m)
    ensures r.Ok? <==> m != Zero(m.rows, m.cols)
    ensures r.Ok? ==> norm != 0.0 && r.value == Div(m, norm) && SquareNorm(r.value) == 1.0
  {
    SquareNormZero(m);
    if norm == 0.0 then PreconditionViolation
    else
      SquareFacts(norm);
      SquareNormDivNorm(m, norm);
      Ok(Div(m, norm))
  }

  // ---------------------------------------------------------------------
  // Comparison

  /** `operator==`: the element arrays are equal. Between matrices of one
      shape that is equality of the matrices. */
  function Equal(a: Mat, b: Mat): (r: bool)
    requires SameShape(a, b)
    ensures r <==> a == b
    ensures r <==> forall i: nat, j: nat :: i < a.rows && j < a.cols ==> Get(a, i, j) == Get(b, i, j)
  {
    if a.elements == b.elements then true
    else
      assert !forall i: nat, j: nat :: i < a.rows && j < a.cols ==> Get(a, i, j) == Get(b, i, j) by {
        if forall i: nat, j: nat :: i < a.rows && j < a.cols ==> Get(a, i, j) == Get(b, i, j) {
          Ext(a, b);
        }
      }
      false
  }

  /** `operator!=`: the element arrays differ. */
  function NotEqual(a: Mat, b: Mat): (r: bool)
    requires SameShape(a, b)
    ensures r <==> !Equal(a, b)
  {
    a.elements != b.elements
  }

  function Abs(x: real): real
  {
    if x < 0.0 then -x else x
  }

  /** `close(lhs, rhs, acc)`: every pair of elements differs by at most acc. */
  function Close(a: Mat, b: Mat, acc: real): bool
    requires SameShape(a, b)
  {
    forall k :: 0 <= k < |a.elements| ==> Abs(a.elements[k] - b.elements[k]) <= acc
  }

  lemma CloseByCoordinates(a: Mat, b: Mat, acc: real)
    requires SameShape(a, b)
    ensures Close(a, b, acc) <==> forall i: nat, j: nat :: i < a.rows && j < a.cols ==> Abs(Get(a, i, j) - Get(b, i, j)) <= acc
  {
    if forall i: nat, j: nat :: i < a.rows && j < a.cols ==> Abs(Get(a, i, j) - Get(b, i, j)) <= acc {
      forall k | 0 <= k < |a.elements|
        ensures Abs(a.elements[k] - b.elements[k]) <= acc
      {
        var i, j := Unflatten(a.rows, a.cols, k);
        assert Abs(Get(a, i, j) - Get(b, i, j)) <= acc;
      }
    }
    if Close(a, b, acc) {
      forall i: nat, j: nat | i < a.rows && j < a.cols
        ensures Abs(Get(a, i, j) - Get(b, i, j)) <= acc
      {
        OffsetBound(a.rows, a.cols, i, j);
      }
    }
  }

  /** Equal matrices are close for any non-negative accuracy; with accuracy 0,
      close is exactly equality. */
  lemma CloseEqual(a: Mat, b: Mat, acc: real)
    requires SameShape(a, b)
    ensures a == b && acc >= 0.0 ==> Close(a, b, acc)
    ensures Close(a, b, 0.0) <==> a == b
  {
    if Close(a, b, 0.0) {
      assert forall k :: 0 <= k < |a.elements| ==> a.elements[k] == b.elements[k] by {
        forall k | 0 <= k < |a.elements|
          ensures a.elements[k] == b.elements[k]
        {
          assert Abs(a.elements[k] - b.elements[k]) <= 0.0;
        }
      }
    }
  }

  /** Closeness is symmetric and is kept when the accuracy grows. */
  lemma CloseSymmetricMonotone(a: Mat, b: Mat, acc: real, acc': real)
    requires SameShape(a, b)
    ensures Close(a, b, acc) <==> Close(b, a, acc)
    ensures Close(a, b, acc) && acc <= acc' ==> Close(a, b, acc')
  {
    forall k | 0 <= k < |a.elements|
      ensures Abs(a.elements[k] - b.elements[k]) == Abs(b.elements[k] - a.elements[k])
    {
    }
  }

  // ---------------------------------------------------------------------
  // Vectors: matrices with one column

  predicate IsVector(v: Mat, n: nat)
  {
    v.rows == n && v.cols == 1
  }

  function Vec3(x: real, y: real, z: real): (v: Mat)
    ensures IsVector(v, 3)
    ensures Get(v, 0, 0) == x && Get(v, 1, 0) == y && Get(v, 2, 0) == z
  {
    Matrix(3, 1, [x, y, z])
  }

  function DotTerms(a: Mat, b: Mat): nat -> real
  {
    (k: nat) => Get(a, k, 0) * Get(b, k, 0)
  }

  /** `dot(lhs, rhs)`: the sum of the products of corresponding elements. */
  function Dot(a: Mat, b: Mat): real
    requires a.cols == 1 && SameShape(a, b)
  {
    Sum(a.rows, DotTerms(a, b))
  }

  lemma DotCommutes(a: Mat, b: Mat)
    requires a.cols == 1 && SameShape(a, b)
    ensures Dot(a, b) == Dot(b, a)
  {
    SumExt(a.rows, DotTerms(a, b), DotTerms(b, a));
  }

  /** The dot product is the single element of the product of the transpose of
      one vector by the other. */
  lemma DotAsProduct(a: Mat, b: Mat)
    requires a.cols == 1 && SameShape(a, b)
    ensures Mul(Transpose(a), b) == Matrix(1, 1, [Dot(a, b)])
  {
    var p := Mul(Transpose(a), b);
    SumExt(a.rows, RowCol(Transpose(a), b, 0, 0), DotTerms(a, b));
    Ext(p, Matrix(1, 1, [Dot(a, b)]));
  }

  /** In a vector, element k of the flat array is element (k, 0). */
  lemma VectorElement(v: Mat, k: nat)
    requires v.cols == 1 && k < v.rows
    ensures k < |v.elements| && v.elements[k] == Get(v, k, 0)
  {
    SizeIsProduct(k, 1);
    SizeIsProduct(v.rows, 1);
  }

  lemma {:induction false} SumSquaresPrefix(v: Mat, n: nat)
    requires v.cols == 1 && n <= v.rows
    ensures n <= |v.elements| && SumSquares(v.elements[..n]) == Sum(n, DotTerms(v, v))
  {
    SizeIsProduct(v.rows, 1);
    if n > 0 {
      SumSquaresPrefix(v, n - 1);
      VectorElement(v, n - 1);
      assert v.elements[..n][..n - 1] == v.elements[..n - 1];
    }
  }

  /** The dot product of a vector with itself is its square norm. */
  lemma DotSelf(v: Mat)
    requires v.cols == 1
    ensures Dot(v, v) == SquareNorm(v)
  {
    SumSquaresPrefix(v, v.rows);
    SizeIsProduct(v.rows, 1);
    assert v.elements[..v.rows] == v.elements;
  }

  /** `cross(lhs, rhs)` for 3d vectors. */
  function Cross(a: Mat, b: Mat): (c: Mat)
    requires IsVector(a, 3) && IsVector(b, 3)
    ensures IsVector(c, 3)
  {
    var a0, a1, a2 := Get(a, 0, 0), Get(a, 1, 0), Get(a, 2, 0);
    var b0, b1, b2 := Get(b, 0, 0), Get(b, 1, 0), Get(b, 2, 0);
    Vec3(a1 * b2 - a2 * b1, a2 * b0 - a0 * b2, a0 * b1 - a1 * b0)
  }

  /** `cross_matrix(v)`: the matrix whose product by any vector w is the
      cross product of v and w. */
  function CrossMatrix(a: Mat): (m: Mat)
    requires IsVector(a, 3)
    ensures m.rows == 3 && m.cols == 3
  {
    var a0, a1, a2 := Get(a, 0, 0), Get(a, 1, 0), Get(a, 2, 0);
    Matrix(3, 3, [0.0, -a2, a1, a2, 0.0, -a0, -a1, a0, 0.0])
  }

  lemma CrossMatrixProduct(a: Mat, b: Mat)
    requires IsVector(a, 3) && IsVector(b, 3)
    ensures Mul(CrossMatrix(a), b) == Cross(a, b)
  {
    var p := Mul(CrossMatrix(a), b);
    forall i: nat | i < 3
      ensures Get(p, i, 0) == Get(Cross(a, b), i, 0)
    {
      assert Get(p, i, 0) == Sum(3, RowCol(CrossMatrix(a), b, i, 0));
    }
    Ext(p, Cross(a, b));
  }

  /** The cross product maps the standard basis cyclically: x * y = z,
      y * z = x and z * x = y. */
  lemma CrossBasis()
    ensures Cross(Vec3(1.0, 0.0, 0.0), Vec3(0.0, 1.0, 0.0)) == Vec3(0.0, 0.0, 1.0)
    ensures Cross(Vec3(0.0, 1.0, 0.0), Vec3(0.0, 0.0, 1.0)) == Vec3(1.0, 0.0, 0.0)
    ensures Cross(Vec3(0.0, 0.0, 1.0), Vec3(1.0, 0.0, 0.0)) == Vec3(0.0, 1.0, 0.0)
  {
  }

  /** Swapping the operands of the cross product negates it. */
  lemma CrossAnticommutes(a: Mat, b: Mat)
    requires IsVector(a, 3) && IsVector(b, 3)
    ensures Cross(a, b) == Negated(Cross(b, a))
  {
    Ext(Cross(a, b), Negated(Cross(b, a)));
  }

  /** The cross product is orthogonal to both operands. */
  lemma CrossOrthogonal(a: Mat, b: Mat)
    requires IsVector(a, 3) && IsVector(b, 3)
    ensures Dot(a, Cross(a, b)) == 0.0 && Dot(b, Cross(a, b)) == 0.0
  {
    var c := Cross(a, b);
    assert Dot(a, c) == Get(a, 0, 0) * Get(c, 0, 0) + Get(a, 1, 0) * Get(c, 1, 0) + Get(a, 2, 0) * Get(c, 2, 0);
    assert Dot(b, c) == Get(b, 0, 0) * Get(c, 0, 0) + Get(b, 1, 0) * Get(c, 1, 0) + Get(b, 2, 0) * Get(c, 2, 0);
  }

  /** m is 3 x 3 and its element (i, j) is a(i) * b(j). */
  predicate IsOuter(m: Mat, a: Mat, b: Mat)
  {
    m.rows == 3 && m.cols == 3 && forall i: nat, j: nat :: i < 3 && j < 3 ==> Get(m, i, j) == Get(a, i, 0) * Get(b, j, 0)
  }

  /** `outer_product(lhs, rhs)` for 3d vectors: element (i, j) is lhs(i) * rhs(j). */
  function OuterProduct(a: Mat, b: Mat): (m: Mat)
    requires IsVector(a, 3) && IsVector(b, 3)
    ensures IsOuter(m, a, b)
  {
    var f := (i: nat, j: nat) => Get(a, i, 0) * Get(b, j, 0);
    var m := Build(3, 3, f);
    assert forall i: nat, j: nat :: i < 3 && j < 3 ==> Get(m, i, j) == f(i, j);
    m
  }

  /** The outer product is the product of a column by a row. */
  lemma OuterProductIsProduct(a: Mat, b: Mat)
    requires IsVector(a, 3) && IsVector(b, 3)
    ensures OuterProduct(a, b) == Mul(a, Transpose(b))
  {
    ColumnByRow(a, b, OuterProduct(a, b));
  }

  /** A 3 x 3 matrix whose element (i, j) is a(i) * b(j) is a times the transpose of b. */
  lemma ColumnByRow(a: Mat, b: Mat, o: Mat)
    requires IsVector(a, 3) && IsVector(b, 3) && IsOuter(o, a, b)
    ensures o == Mul(a, Transpose(b))
  {
    var p := Mul(a, Transpose(b));
    forall i: nat, j: nat | i < 3 && j < 3
      ensures Get(o, i, j) == Get(p, i, j)
    {
      OuterProductElement(a, b, i, j);
    }
    Ext(o, p);
  }

  /** Equal factors give equal products. */
  lemma ProductChain(g: real, x: real, y: real, z: real, h: real)
    requires g == x * y && y == z && h == x * z
    ensures g == h
  {
  }

  /** A column times a row: each element is a single product. */
  lemma ColumnTimesRow(a: Mat, c: Mat, i: nat, j: nat)
    requires a.cols == 1 && c.rows == 1 && i < a.rows && j < c.cols
    ensures Get(Mul(a, c), i, j) == Get(a, i, 0) * Get(c, 0, j)
  {
    calc {
      Get(Mul(a, c), i, j);
      Sum(1, RowCol(a, c, i, j));
      RowCol(a, c, i, j)(0);
    == { RowColTerm(a, c, i, j, 0); }
      Get(a, i, 0) * Get(c, 0, j);
    }
  }

  /** Element (i, j) of the column a times the row b is a(i) * b(j). */
  lemma OuterProductElement(a: Mat, b: Mat, i: nat, j: nat)
    requires IsVector(a, 3) && IsVector(b, 3) && i < 3 && j < 3
    ensures Get(Mul(a, Transpose(b)), i, j) == Get(a, i, 0) * Get(b, j, 0)
  {
    var t := Transpose(b);
    ColumnTimesRow(a, t, i, j);
    ProductChain(Get(Mul(a, t), i, j), Get(a, i, 0), Get(t, 0, j), Get(b, j, 0), Get(a, i, 0) * Get(b, j, 0));
  }

  /** The trace of the outer product is the dot product. */
  lemma OuterProductTrace(a: Mat, b: Mat)
    requires IsVector(a, 3) && IsVector(b, 3)
    ensures Trace(OuterProduct(a, b)) == Dot(a, b)
  {
    SumExt(3, Diag(OuterProduct(a, b)), DotTerms(a, b));
  }
}
