/** The pixel layout of an N-dimensional `hou::Image`: a size vector, its
    pixel count, and the linear index of a pixel, in which the first
    coordinate varies fastest. Vectors of unsigned components are `seq<nat>`. */
module ImageLayout {

  /** Everything but the last component. */
  function Front(s: seq<nat>): seq<nat>
    requires |s| > 0
  {
    s[..|s| - 1]
  }

  function Last(s: seq<nat>): nat
    requires |s| > 0
  {
    s[|s| - 1]
  }

  /** The number of pixels of an image of the given size: the product of
      its components (1 for no component at all). */
  function PixelCount(size: seq<nat>): nat
  {
    if |size| == 0 then 1 else PixelCount(Front(size)) * Last(size)
  }

  /** Every coordinate is below the matching size component. */
  predicate InBounds(c: seq<nat>, size: seq<nat>)
  {
    |c| == |size| && forall i :: 0 <= i < |c| ==> c[i] < size[i]
  }

  /** The sum over i of c(i) times the product of the size components
      before i. */
  function PixelIndex(c: seq<nat>, size: seq<nat>): nat
    requires |c| == |size|
  {
    if |size| == 0 then 0 else PixelIndex(Front(c), Front(size)) + Last(c) * PixelCount(Front(size))
  }

  // ---------------------------------------------------------------------
  // Arithmetic facts, kept apart so that the layout proofs stay linear

  lemma MulPositive(a: nat, b: nat)
    requires a * b > 0
    ensures a > 0 && b > 0
  {
  }

  lemma MixedBound(a: nat, b: nat, p: nat, s: nat)
    requires a < p && b < s
    ensures a + b * p < p * s
  {
    assert b * p <= (s - 1) * p;
  }

  lemma DivBound(k: nat, p: nat, s: nat)
    requires p > 0 && k < p * s
    ensures k / p < s
  {
  }

  lemma {:induction false} MulAtLeast(d: nat, p: nat)
    requires d >= 1
    ensures d * p >= p
  {
    if d > 1 {
      MulAtLeast(d - 1, p);
      assert d * p == (d - 1) * p + p;
    }
  }

  lemma DivModParts(k: nat, p: nat)
    requires p > 0
    ensures k == (k / p) * p + k % p && k % p < p
  {
  }

  /** Quotient and remainder are unique. */
  lemma DivModUnique(k: nat, p: nat, q: nat, r: nat)
    requires p > 0 && r < p && k == q * p + r
    ensures k / p == q && k % p == r
  {
    var q', r' := k / p, k % p;
    assert k == q' * p + r';
    if q > q' {
      MulAtLeast(q - q', p);
      assert false;
    } else if q' > q {
      MulAtLeast(q' - q, p);
      assert false;
    }
  }

  // ---------------------------------------------------------------------
  // Coordinates of a linear index

  /** The coordinates of the pixel at linear index k: the inverse of
      PixelIndex, peeling off the last coordinate first. */
  function Coordinates(k: nat, size: seq<nat>): (c: seq<nat>)
    requires k < PixelCount(size)
    ensures InBounds(c, size)
    decreases |size|
  {
    if |size| == 0 then []
    else
      var p, n := PixelCount(Front(size)), Last(size);
      MulPositive(p, n);
      DivBound(k, p, n);
      DivModParts(k, p);
      var q, r := k / p, k % p;
      var front := Coordinates(r, Front(size));
      var c := front + [q];
      assert forall i :: 0 <= i < |size| - 1 ==> c[i] == front[i] < Front(size)[i] == size[i];
      assert c[|size| - 1] == q < n == size[|size| - 1];
      c
  }

  /** An in-bounds pixel has an index below the pixel count. */
  lemma {:induction false} IndexBound(c: seq<nat>, size: seq<nat>)
    requires InBounds(c, size)
    ensures PixelIndex(c, size) < PixelCount(size)
  {
    if |size| > 0 {
      assert InBounds(Front(c), Front(size));
      IndexBound(Front(c), Front(size));
      MixedBound(PixelIndex(Front(c), Front(size)), Last(c), PixelCount(Front(size)), Last(size));
    }
  }

  /** Index to coordinates to index is the identity. */
  lemma {:induction false} IndexOfCoordinates(k: nat, size: seq<nat>)
    requires k < PixelCount(size)
    ensures PixelIndex(Coordinates(k, size), size) == k
  {
    if |size| > 0 {
      var p := PixelCount(Front(size));
      var c := Coordinates(k, size);
      MulPositive(p, Last(size));
      DivModParts(k, p);
      assert Front(c) == Coordinates(k % p, Front(size));
      assert Last(c) == k / p;
      IndexOfCoordinates(k % p, Front(size));
    }
  }

  /** Coordinates to index to coordinates is the identity. */
  lemma {:induction false} CoordinatesOfIndex(c: seq<nat>, size: seq<nat>)
    requires InBounds(c, size)
    ensures PixelIndex(c, size) < PixelCount(size) && Coordinates(PixelIndex(c, size), size) == c
  {
    IndexBound(c, size);
    if |size| > 0 {
      var p := PixelCount(Front(size));
      var a := PixelIndex(Front(c), Front(size));
      assert InBounds(Front(c), Front(size));
      IndexBound(Front(c), Front(size));
      DivModUnique(a + Last(c) * p, p, Last(c), a);
      CoordinatesOfIndex(Front(c), Front(size));
      assert c == Front(c) + [Last(c)];
    }
  }

  /** Distinct in-bounds pixels have distinct indices. */
  lemma IndexInjective(c: seq<nat>, d: seq<nat>, size: seq<nat>)
    requires InBounds(c, size) && InBounds(d, size) && PixelIndex(c, size) == PixelIndex(d, size)
    ensures c == d
  {
    CoordinatesOfIndex(c, size);
    CoordinatesOfIndex(d, size);
  }

  // ---------------------------------------------------------------------
  // Vectors

  /** Component-wise sum. */
  function Plus(a: seq<nat>, b: seq<nat>): (r: seq<nat>)
    requires |a| == |b|
    ensures |r| == |a| && forall i :: 0 <= i < |a| ==> r[i] == a[i] + b[i]
  {
    seq(|a|, i requires 0 <= i < |a| => a[i] + b[i])
  }

  /** Every component of a is at most the matching component of b. */
  predicate LowerOrEqual(a: seq<nat>, b: seq<nat>)
    requires |a| == |b|
  {
    forall i :: 0 <= i < |a| ==> a[i] <= b[i]
  }

  /** v extended (or cut) to d components, the new ones equal to value. */
  function Padded(v: seq<nat>, d: nat, value: nat): (r: seq<nat>)
    ensures |r| == d
  {
    seq(d, i requires 0 <= i < d => if i < |v| then v[i] else value)
  }

  /** Padding a size with 1s keeps its pixel count. */
  lemma {:induction false} PaddedCount(size: seq<nat>, d: nat)
    requires d >= |size|
    ensures PixelCount(Padded(size, d, 1)) == PixelCount(size)
  {
    var r := Padded(size, d, 1);
    if d > |size| {
      assert Front(r) == Padded(size, d - 1, 1);
      PaddedCount(size, d - 1);
    } else {
      assert r == size;
    }
  }

  /** Padding coordinates with 0s and the size with 1s keeps the index, so
      the pixels of a raised image stay in the same order. */
  lemma {:induction false} PaddedIndex(c: seq<nat>, size: seq<nat>, d: nat)
    requires |c| == |size| && d >= |size|
    ensures PixelIndex(Padded(c, d, 0), Padded(size, d, 1)) == PixelIndex(c, size)
  {
    var pc, ps := Padded(c, d, 0), Padded(size, d, 1);
    if d > |size| {
      assert Front(pc) == Padded(c, d - 1, 0) && Front(ps) == Padded(size, d - 1, 1);
      assert Last(pc) == 0;
      PaddedIndex(c, size, d - 1);
    } else {
      assert pc == c && ps == size;
    }
  }

  /** Padded coordinates are in bounds of the padded size exactly when the
      original ones are in bounds of the original size. */
  lemma PaddedInBounds(c: seq<nat>, size: seq<nat>, d: nat)
    requires |c| == |size| && d >= |size|
    ensures InBounds(Padded(c, d, 0), Padded(size, d, 1)) <==> InBounds(c, size)
  {
    var pc, ps := Padded(c, d, 0), Padded(size, d, 1);
    if InBounds(c, size) {
      forall i | 0 <= i < d ensures pc[i] < ps[i] {
      }
    }
    if InBounds(pc, ps) {
      forall i | 0 <= i < |c| ensures c[i] < size[i] {
        assert pc[i] == c[i] && ps[i] == size[i];
      }
    }
  }
}
