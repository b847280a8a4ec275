/** `hou::Image<dim, fmt>`: an N-dimensional image holding a size vector and
    one flat pixel buffer with PixelCount(size) pixels, the first coordinate
    varying fastest. The pixel type is a type parameter. */
module Images {
  import opened Checked
  import opened ImageLayout
  import opened SubImages

  /** `elementWiseLowerOrEqual`: stops at the first component of lhs above
      the matching component of rhs. */
  method ElementWiseLowerOrEqual(lhs: seq<nat>, rhs: seq<nat>) returns (b: bool)
    requires |lhs| == |rhs|
    ensures b <==> LowerOrEqual(lhs, rhs)
  {
    var i := 0;
    while i < |lhs|
      invariant 0 <= i <= |lhs|
      invariant forall j :: 0 <= j < i ==> lhs[j] <= rhs[j]
    {
      if lhs[i] > rhs[i] {
        return false;
      }
      i := i + 1;
    }
    return true;
  }

  /** `padVector<dimOut>(v, value)`: a vector of dimOut components filled
      with value, over which the first min(dimOut, |v|) components of v are
      copied. */
  method PadVector(v: seq<nat>, dimOut: nat, value: nat) returns (r: seq<nat>)
    ensures r == Padded(v, dimOut, value)
  {
    r := seq(dimOut, _ => value);
    var i := 0;
    while i < if dimOut < |v| then dimOut else |v|
      invariant 0 <= i <= dimOut && i <= |v|
      invariant |r| == dimOut
      invariant forall j :: 0 <= j < dimOut ==> r[j] == if j < i then v[j] else value
    {
      r := r[i := v[i]];
      i := i + 1;
    }
  }

  /** The size vector of the default constructor: dim zero components. */
  function ZeroSize(dim: nat): (s: seq<nat>)
    ensures |s| == dim && forall i :: 0 <= i < dim ==> s[i] == 0
  {
    seq(dim, _ => 0)
  }

  lemma {:induction false} ZeroSizeCount(dim: nat)
    requires dim >= 1
    ensures PixelCount(ZeroSize(dim)) == 0
  {
    assert Last(ZeroSize(dim)) == 0;
  }

  class Image<P(0, ==)> {
    const size: seq<nat>
    const pixels: array<P>

    ghost predicate Valid()
      reads this
    {
      pixels.Length == PixelCount(size)
    }

    /** The default constructor: a zero size and no pixels (dim is 1, 2 or 3
        in the engine). */
    constructor Empty(dim: nat)
      requires dim >= 1
      ensures Valid() && fresh(pixels)
      ensures size == ZeroSize(dim) && pixels.Length == 0
    {
      ZeroSizeCount(dim);
      size := ZeroSize(dim);
      pixels := new P[0];
    }

    /** `Image(size, pixel)`, and `Image(size)` with the default pixel passed
        as pixel: PixelCount(size) copies of pixel. */
    constructor (size: seq<nat>, pixel: P)
      ensures Valid() && fresh(pixels) && this.size == size
      ensures forall k :: 0 <= k < pixels.Length ==> pixels[k] == pixel
    {
      this.size := size;
      pixels := new P[PixelCount(size)](_ => pixel);
    }

    /** `Image(size, pixels)`, the pixels given in layout order. */
    constructor FromSeq(size: seq<nat>, ps: seq<P>)
      requires |ps| == PixelCount(size)
      ensures Valid() && fresh(pixels) && this.size == size && pixels[..] == ps
    {
      this.size := size;
      pixels := new P[|ps|](k requires 0 <= k < |ps| => ps[k]);
    }

    /** `Image(size, pixels)` with its length check: a wrong number of pixels
        is a precondition violation. */
    static method FromPixels(size: seq<nat>, ps: seq<P>) returns (r: Checked<Image<P>>)
      ensures r.Ok? <==> |ps| == PixelCount(size)
      ensures r.Ok? ==> fresh(r.value.pixels) && r.value.Valid()
      ensures r.Ok? ==> r.value.size == size && r.value.pixels[..] == ps
    {
      if |ps| == PixelCount(size) {
        var im := new Image.FromSeq(size, ps);
        r := Ok(im);
      } else {
        r := PreconditionViolation;
      }
    }

    /** The conversion constructor to a higher dimension: the size padded
        with 1s and the pixels copied in order. */
    constructor Raised(other: Image<P>, dim: nat)
      requires other.Valid() && dim >= |other.size|
      ensures Valid() && fresh(pixels)
      ensures size == Padded(other.size, dim, 1)
      ensures pixels[..] == other.pixels[..]
    {
      var s := PadVector(other.size, dim, 1);
      PaddedCount(other.size, dim);
      size := s;
      pixels := new P[PixelCount(s)];
      new;
      var i := 0;
      while i < pixels.Length
        invariant 0 <= i <= pixels.Length == other.pixels.Length
        invariant forall k :: 0 <= k < i ==> pixels[k] == other.pixels[k]
      {
        pixels[i] := other.pixels[i];
        i := i + 1;
      }
    }

    /** `computePixelCount`. */
    method ComputePixelCount() returns (n: nat)
      ensures n == PixelCount(size)
    {
      n := 1;
      var i := 0;
      while i < |size|
        invariant 0 <= i <= |size|
        invariant n == PixelCount(size[..i])
      {
        assert Front(size[..i + 1]) == size[..i];
        n := n * size[i];
        i := i + 1;
      }
      assert size[..|size|] == size;
    }

    /** `computePixelIndex`: every coordinate is checked first, then the
        index is accumulated with a running multiplier. */
    method ComputePixelIndex(c: seq<nat>) returns (r: Checked<nat>)
      requires Valid() && |c| == |size|
      ensures r.Ok? <==> InBounds(c, size)
      ensures r.Ok? ==> r.value == PixelIndex(c, size) && r.value < pixels.Length
    {
      var i := 0;
      while i < |size|
        invariant 0 <= i <= |size|
        invariant forall j :: 0 <= j < i ==> c[j] < size[j]
      {
        if !(c[i] < size[i]) {
          return PreconditionViolation;
        }
        i := i + 1;
      }
      var idx, multiplier := 0, 1;
      i := 0;
      while i < |size|
        invariant 0 <= i <= |size|
        invariant idx == PixelIndex(c[..i], size[..i])
        invariant multiplier == PixelCount(size[..i])
      {
        assert Front(c[..i + 1]) == c[..i] && Front(size[..i + 1]) == size[..i];
        idx := idx + c[i] * multiplier;
        multiplier := multiplier * size[i];
        i := i + 1;
      }
      assert c[..|c|] == c && size[..|size|] == size;
      IndexBound(c, size);
      return Ok(idx);
    }

    /** `getPixel(coordinates)`: out-of-bounds coordinates are a precondition
        violation. */
    method GetPixel(c: seq<nat>) returns (r: Checked<P>)
      requires Valid() && |c| == |size|
      ensures r.Ok? <==> InBounds(c, size)
      ensures r.Ok? ==> PixelIndex(c, size) < pixels.Length && r.value == pixels[PixelIndex(c, size)]
    {
      var index := ComputePixelIndex(c);
      if index.Ok? {
        r := Ok(pixels[index.value]);
      } else {
        r := PreconditionViolation;
      }
    }

    /** `setPixel(coordinates, pixel)`, a write through the reference that
        `getPixel` returns: only the pixel at the index of c changes. */
    method SetPixel(c: seq<nat>, pixel: P) returns (ok: bool)
      requires Valid() && |c| == |size|
      modifies pixels
      ensures ok <==> InBounds(c, size)
      ensures ok ==> PixelIndex(c, size) < pixels.Length && pixels[..] == old(pixels[..])[PixelIndex(c, size) := pixel]
      ensures !ok ==> pixels[..] == old(pixels[..])
    {
      var index := ComputePixelIndex(c);
      ok := index.Ok?;
      if ok {
        pixels[index.value] := pixel;
      }
    }

    /** `setPixels(pixels)`: a wrong number of pixels is a precondition
        violation and changes nothing. */
    method SetPixels(ps: seq<P>) returns (ok: bool)
      requires Valid()
      modifies pixels
      ensures ok <==> |ps| == PixelCount(size)
      ensures ok ==> pixels[..] == ps
      ensures !ok ==> pixels[..] == old(pixels[..])
    {
      ok := |ps| == pixels.Length;
      if ok {
        var i := 0;
        while i < pixels.Length
          invariant 0 <= i <= pixels.Length
          invariant forall k :: 0 <= k < i ==> pixels[k] == ps[k]
        {
          pixels[i] := ps[i];
          i := i + 1;
        }
      }
    }

    /** `clear(pixel)`: every pixel becomes pixel; the size stays. */
    method Clear(pixel: P)
      requires Valid()
      modifies pixels
      ensures forall k :: 0 <= k < pixels.Length ==> pixels[k] == pixel
    {
      var i := 0;
      while i < pixels.Length
        invariant 0 <= i <= pixels.Length
        invariant forall k :: 0 <= k < i ==> pixels[k] == pixel
      {
        pixels[i] := pixel;
        i := i + 1;
      }
    }

    /** `getSubImage(offset, subSize)`: a region that does not fit in the
        image is a precondition violation. */
    method GetSubImage(offset: seq<nat>, subSize: seq<nat>) returns (r: Checked<Image<P>>)
      requires Valid() && |offset| == |subSize| == |size|
      ensures r.Ok? <==> FitsIn(offset, subSize, size)
      ensures r.Ok? ==> fresh(r.value.pixels) && r.value.Valid() && r.value.size == subSize
      ensures r.Ok? ==> r.value.pixels[..] == SubPixels(pixels[..], size, offset, subSize)
    {
      var fits := ElementWiseLowerOrEqual(Plus(offset, subSize), size);
      if !fits {
        return PreconditionViolation;
      }
      var n := PixelCount(subSize);
      var ps: seq<P> := [];
      var j := 0;
      while j < n
        invariant 0 <= j <= n && |ps| == j
        invariant forall k :: 0 <= k < j ==> ps[k] == pixels[ShiftedIndex(k, offset, subSize, size)]
      {
        ps := ps + [pixels[ShiftedIndex(j, offset, subSize, size)]];
        j := j + 1;
      }
      var out := new Image.FromSeq(subSize, ps);
      return Ok(out);
    }

    /** `setSubImage(offset, sub)`: a region that does not fit in the image
        is a precondition violation and changes nothing; otherwise the region
        takes the pixels of sub. */
    method SetSubImage(offset: seq<nat>, sub: Image<P>) returns (ok: bool)
      requires Valid() && sub.Valid() && |offset| == |sub.size| == |size|
      requires sub.pixels != pixels
      modifies pixels
      ensures ok <==> FitsIn(offset, sub.size, size)
      ensures ok ==> pixels[..] == Pasted(old(pixels[..]), size, offset, sub.size, sub.pixels[..])
      ensures !ok ==> pixels[..] == old(pixels[..])
    {
      ok := ElementWiseLowerOrEqual(Plus(offset, sub.size), size);
      if !ok {
        return;
      }
      ghost var was := pixels[..];
      PastedNothing(was, size, offset, sub.size, sub.pixels[..]);
      var j := 0;
      while j < sub.pixels.Length
        invariant 0 <= j <= sub.pixels.Length
        invariant pixels[..] == PastedPrefix(was, size, offset, sub.size, sub.pixels[..], j)
      {
        PasteStep(was, size, offset, sub.size, sub.pixels[..], j);
        pixels[ShiftedIndex(j, offset, sub.size, size)] := sub.pixels[j];
        j := j + 1;
      }
    }

    /** `operator==`: the same size and the same pixels. */
    function Equal(other: Image<P>): (r: bool)
      reads this, pixels, other, other.pixels
      requires Valid() && other.Valid()
      ensures r <==> size == other.size && forall c :: InBounds(c, size) ==>
        PixelIndex(c, size) < pixels.Length && pixels[PixelIndex(c, size)] == other.pixels[PixelIndex(c, size)]
    {
      if size == other.size then
        SameByCoordinates(pixels[..], other.pixels[..], size);
        pixels[..] == other.pixels[..]
      else false
    }

    /** `operator!=`. */
    function NotEqual(other: Image<P>): (r: bool)
      reads this, pixels, other, other.pixels
      requires Valid() && other.Valid()
      ensures r <==> !Equal(other)
    {
      !(size == other.size && pixels[..] == other.pixels[..])
    }
  }

  /** Two pixel buffers of the same layout are equal exactly when they agree
      at every in-bounds coordinate. */
  lemma SameByCoordinates<P>(ps: seq<P>, qs: seq<P>, size: seq<nat>)
    requires |ps| == |qs| == PixelCount(size)
    ensures ps == qs <==> forall c :: InBounds(c, size) ==>
      PixelIndex(c, size) < |ps| && ps[PixelIndex(c, size)] == qs[PixelIndex(c, size)]
  {
    forall c | InBounds(c, size)
      ensures PixelIndex(c, size) < |ps|
    {
      IndexBound(c, size);
    }
    if ps != qs {
      var k :| 0 <= k < |ps| && ps[k] != qs[k];
      IndexOfCoordinates(k, size);
    }
  }

  /** Reading back a pixel just written through SetPixel gives it, and
      every other in-bounds pixel keeps its value. */
  lemma SetPixelThenGet<P>(ps: seq<P>, size: seq<nat>, c: seq<nat>, d: seq<nat>, pixel: P)
    requires |ps| == PixelCount(size) && InBounds(c, size) && InBounds(d, size)
    ensures PixelIndex(c, size) < |ps| && PixelIndex(d, size) < |ps|
    ensures ps[PixelIndex(c, size) := pixel][PixelIndex(d, size)] == if d == c then pixel else ps[PixelIndex(d, size)]
  {
    IndexBound(c, size);
    IndexBound(d, size);
    if PixelIndex(c, size) == PixelIndex(d, size) {
      IndexInjective(c, d, size);
    }
  }

  /** A raised image holds each pixel of the original at the original
      coordinates padded with 0s. */
  lemma RaisedPixel<P>(ps: seq<P>, size: seq<nat>, dim: nat, c: seq<nat>)
    requires |ps| == PixelCount(size) && dim >= |size| && InBounds(c, size)
    ensures InBounds(Padded(c, dim, 0), Padded(size, dim, 1))
    ensures PixelIndex(Padded(c, dim, 0), Padded(size, dim, 1)) == PixelIndex(c, size) < |ps|
  {
    PaddedInBounds(c, size, dim);
    PaddedIndex(c, size, dim);
    IndexBound(c, size);
  }
}
