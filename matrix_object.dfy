/** The mutating side of `hou::matrix`: an object owning its flat row-major
    element array, whose members (`set`, `fill`, `+=`, `-=`, `*=`, `/=`,
    `adjugate()`, `invert()`, `normalize()`) overwrite that array. Each
    member's new value is the matching value-level operation of module
    Matrices or Determinants applied to the old value. */
module MatrixObjects {
  import opened Checked
  import opened Matrices
  import opened Determinants

  class MatrixObject {
    const rows: nat
    const cols: nat
    const data: array<real>

    ghost predicate Valid()
      reads this
    {
      data.Length == Size(rows, cols)
    }

    /** The matrix this object currently holds. */
    function Value(): (m: Mat)
      reads this, data
      requires Valid()
      ensures m.rows == rows && m.cols == cols
    {
      Matrix(rows, cols, data[..])
    }

    /** The default constructor: every element is zero. */
    constructor (r: nat, c: nat)
      ensures Valid() && fresh(data)
      ensures Value() == Zero(r, c)
    {
      rows, cols := r, c;
      data := new real[Size(r, c)](_ => 0.0);
    }

    /** A copy of the matrix m. */
    constructor Copy(m: Mat)
      ensures Valid() && fresh(data)
      ensures Value() == m
    {
      rows, cols := m.rows, m.cols;
      data := new real[|m.elements|](k requires 0 <= k < |m.elements| => m.elements[k]);
    }

    /** Overwrites the whole element array with xs. */
    method Store(xs: seq<real>)
      requires Valid() && |xs| == data.Length
      modifies data
      ensures Valid() && data[..] == xs
    {
      var i := 0;
      while i < data.Length
        invariant 0 <= i <= data.Length
        invariant forall k :: 0 <= k < i ==> data[k] == xs[k]
      {
        data[i] := xs[i];
        i := i + 1;
      }
    }

    /** `operator()(index) const`: the bounds-checked read. */
    method At(index: nat) returns (r: Checked<real>)
      requires Valid()
      ensures r == ElementAt(Value(), index)
    {
      if index < data.Length {
        r := Ok(data[index]);
      } else {
        r := PreconditionViolation;
      }
    }

    /** `operator()(row, col) const`: the bounds-checked read by coordinates. */
    method AtRC(row: nat, col: nat) returns (r: Checked<real>)
      requires Valid()
      ensures r == ElementAtRC(Value(), row, col)
    {
      if row < rows && col < cols {
        OffsetIsRowMajor(cols, row, col);
        OffsetBound(rows, cols, row, col);
        r := Ok(data[row * cols + col]);
      } else {
        r := PreconditionViolation;
      }
    }

    /** A write through the reference `operator()(index)` returns: a bad index
        is a precondition violation and changes nothing. */
    method SetAt(index: nat, x: real) returns (ok: bool)
      requires Valid()
      modifies data
      ensures Valid()
      ensures ok <==> index < rows * cols
      ensures ok ==> index < |old(Value()).elements| && Value() == WithElement(old(Value()), index, x)
      ensures !ok ==> Value() == old(Value())
    {
      SizeIsProduct(rows, cols);
      ok := index < data.Length;
      if ok {
        data[index] := x;
        assert data[..] == old(data[..])[index := x];
      }
    }

    /** A write through the reference `operator()(row, col)` returns. */
    method SetAtRC(row: nat, col: nat, x: real) returns (ok: bool)
      requires Valid()
      modifies data
      ensures Valid()
      ensures ok <==> row < rows && col < cols
      ensures ok ==> row * cols + col < |old(Value()).elements|
      ensures ok ==> Value() == WithElement(old(Value()), row * cols + col, x)
      ensures !ok ==> Value() == old(Value())
    {
      ok := row < rows && col < cols;
      if ok {
        SizeIsProduct(rows, cols);
        OffsetIsRowMajor(cols, row, col);
        OffsetBound(rows, cols, row, col);
        var index := row * cols + col;
        data[index] := x;
        assert data[..] == old(data[..])[index := x];
      }
    }

    /** `set(elements...)`: the elements given row after row. */
    method Set(xs: seq<real>)
      requires Valid() && |xs| == rows * cols
      modifies data
      ensures Valid()
      ensures Value().elements == xs
    {
      SizeIsProduct(rows, cols);
      Store(xs);
    }

    /** `fill(value)`. */
    method Fill(x: real)
      requires Valid()
      modifies data
      ensures Valid()
      ensures Value() == Filled(rows, cols, x)
    {
      var i := 0;
      while i < data.Length
        invariant 0 <= i <= data.Length
        invariant forall k :: 0 <= k < i ==> data[k] == x
      {
        data[i] := x;
        i := i + 1;
      }
    }

    /** `operator+=(rhs)`. */
    method AddAssign(rhs: Mat)
      requires Valid() && rhs.rows == rows && rhs.cols == cols
      modifies data
      ensures Valid()
      ensures Value() == Add(old(Value()), rhs)
    {
      var i := 0;
      while i < data.Length
        invariant 0 <= i <= data.Length
        invariant forall k :: 0 <= k < i ==> data[k] == old(data[k]) + rhs.elements[k]
        invariant forall k :: i <= k < data.Length ==> data[k] == old(data[k])
      {
        data[i] := data[i] + rhs.elements[i];
        i := i + 1;
      }
    }

    /** `operator-=(rhs)`. */
    method SubAssign(rhs: Mat)
      requires Valid() && rhs.rows == rows && rhs.cols == cols
      modifies data
      ensures Valid()
      ensures Value() == Sub(old(Value()), rhs)
    {
      var i := 0;
      while i < data.Length
        invariant 0 <= i <= data.Length
        invariant forall k :: 0 <= k < i ==> data[k] == old(data[k]) - rhs.elements[k]
        invariant forall k :: i <= k < data.Length ==> data[k] == old(data[k])
      {
        data[i] := data[i] - rhs.elements[i];
        i := i + 1;
      }
    }

    /** `operator*=(s)`; `m * s` and `s * m` are this applied to a copy. */
    method MulAssign(s: real)
      requires Valid()
      modifies data
      ensures Valid()
      ensures Value() == Scale(old(Value()), s)
    {
      var i := 0;
      while i < data.Length
        invariant 0 <= i <= data.Length
        invariant forall k :: 0 <= k < i ==> data[k] == old(data[k]) * s
        invariant forall k :: i <= k < data.Length ==> data[k] == old(data[k])
      {
        data[i] := data[i] * s;
        i := i + 1;
      }
      ghost var was := old(Value());
      forall k | 0 <= k < data.Length
        ensures data[k] == Scale(was, s).elements[k]
      {
        assert was.elements[k] == old(data[k]);
      }
    }

    /** `operator/=(s)`; `m / s` is this applied to a copy. */
    method DivAssign(s: real)
      requires Valid() && s != 0.0
      modifies data
      ensures Valid()
      ensures Value() == Div(old(Value()), s)
    {
      var i := 0;
      while i < data.Length
        invariant 0 <= i <= data.Length
        invariant forall k :: 0 <= k < i ==> data[k] == old(data[k]) / s
        invariant forall k :: i <= k < data.Length ==> data[k] == old(data[k])
      {
        data[i] := data[i] / s;
        i := i + 1;
      }
    }

    /** `adjugate()`: replaces the matrix with its adjugate. */
    method AdjugateInPlace()
      requires Valid() && rows == cols && rows >= 1
      modifies data
      ensures Valid()
      ensures Value() == Adjugate(old(Value()))
    {
      var a := Adjugate(Value());
      Store(a.elements);
    }

    /** `invert()`: a zero determinant is a precondition violation and leaves
        the matrix as it was. */
    method Invert() returns (ok: bool)
      requires Valid() && rows == cols && rows >= 1
      modifies data
      ensures Valid()
      ensures ok <==> Det(old(Value())) != 0.0
      ensures ok ==> Inverse(old(Value())) == Ok(Value())
      ensures !ok ==> Value() == old(Value())
    {
      var r := Inverse(Value());
      ok := r.Ok?;
      if ok {
        Store(r.value.elements);
      }
    }

    /** `normalize()`, given the norm of the current value: a zero norm is a
        precondition violation and leaves the matrix as it was. */
    method Normalize(norm: real) returns (ok: bool)
      requires Valid() && norm >= 0.0 && Square(norm) == SquareNorm(Value())
      modifies data
      ensures Valid()
      ensures ok <==> norm != 0.0
      ensures ok ==> Normalized(old(Value()), norm) == Ok(Value())
      ensures !ok ==> Value() == old(Value())
    {
      var r := Normalized(Value(), norm);
      SquareNormZero(Value());
      SquareFacts(norm);
      ok := r.Ok?;
      if ok {
        Store(r.value.elements);
      }
    }
  }

  /** Unary minus: negates, one element at a time, a copy of m. */
  method Opposite(m: Mat) returns (r: Mat)
    ensures r == Negated(m)
  {
    var xs := m.elements;
    var i := 0;
    while i < |xs|
      invariant 0 <= i <= |xs| == |m.elements|
      invariant forall k :: 0 <= k < i ==> xs[k] == -m.elements[k]
      invariant forall k :: i <= k < |xs| ==> xs[k] == m.elements[k]
    {
      xs := xs[i := -xs[i]];
      i := i + 1;
    }
    r := Matrix(m.rows, m.cols, xs);
  }

  /** Two matrices have matching sign when every pair of elements at the same
      position is either both negative or both not. */
  predicate MatchingSign(t: Mat, u: Mat)
    requires SameShape(t, u)
  {
    forall k :: 0 <= k < |t.elements| ==> (t.elements[k] < 0.0 <==> u.elements[k] < 0.0)
  }

  /** `check_matching_sign<matrix, matrix>::check`: stops at the first element
      pair whose signs differ. */
  method CheckMatchingSign(t: Mat, u: Mat) returns (b: bool)
    requires SameShape(t, u)
    ensures b <==> MatchingSign(t, u)
    ensures !b ==> exists k :: 0 <= k < |t.elements| && (t.elements[k] < 0.0) != (u.elements[k] < 0.0)
  {
    var i := 0;
    while i < |t.elements|
      invariant 0 <= i <= |t.elements|
      invariant forall k :: 0 <= k < i ==> (t.elements[k] < 0.0 <==> u.elements[k] < 0.0)
    {
      if (t.elements[i] < 0.0) != (u.elements[i] < 0.0) {
        return false;
      }
      i := i + 1;
    }
    return true;
  }
}
