/** Sub-image extraction and write-back on flat pixel sequences: the values
    that `getSubImage` returns and that `setSubImage` leaves behind. A
    sub-image of size subSize placed at offset covers the pixels whose
    coordinates are offset + p for every p in bounds of subSize. */
module SubImages {
  import opened ImageLayout

  /** The region offset .. offset + subSize lies within size. */
  predicate FitsIn(offset: seq<nat>, subSize: seq<nat>, size: seq<nat>)
  {
    |offset| == |subSize| == |size| && LowerOrEqual(Plus(offset, subSize), size)
  }

  lemma ShiftInBounds(p: seq<nat>, offset: seq<nat>, subSize: seq<nat>, size: seq<nat>)
    requires FitsIn(offset, subSize, size) && InBounds(p, subSize)
    ensures InBounds(Plus(offset, p), size)
  {
    var s := Plus(offset, subSize);
    forall i | 0 <= i < |p| ensures Plus(offset, p)[i] < size[i] {
      assert s[i] <= size[i];
    }
  }

  /** The index in the image of pixel k of the sub-image. */
  function ShiftedIndex(k: nat, offset: seq<nat>, subSize: seq<nat>, size: seq<nat>): (t: nat)
    requires FitsIn(offset, subSize, size) && k < PixelCount(subSize)
    ensures t < PixelCount(size)
  {
    var p := Coordinates(k, subSize);
    ShiftInBounds(p, offset, subSize, size);
    IndexBound(Plus(offset, p), size);
    PixelIndex(Plus(offset, p), size)
  }

  /** Coordinates c lie in the region covered by the sub-image. */
  predicate InRegion(c: seq<nat>, offset: seq<nat>, subSize: seq<nat>)
    requires |c| == |offset| == |subSize|
  {
    forall i :: 0 <= i < |c| ==> offset[i] <= c[i] < offset[i] + subSize[i]
  }

  /** The coordinates within the sub-image of a pixel of its region. */
  function Local(c: seq<nat>, offset: seq<nat>, subSize: seq<nat>): (p: seq<nat>)
    requires |c| == |offset| == |subSize| && InRegion(c, offset, subSize)
    ensures InBounds(p, subSize) && Plus(offset, p) == c
  {
    var p := seq(|c|, i requires 0 <= i < |c| => c[i] - offset[i]);
    assert Plus(offset, p) == c;
    p
  }

  /** The index within the sub-image of a pixel of its region. */
  function SubIndex(c: seq<nat>, offset: seq<nat>, subSize: seq<nat>): (j: nat)
    requires |c| == |offset| == |subSize| && InRegion(c, offset, subSize)
    ensures j < PixelCount(subSize)
  {
    IndexBound(Local(c, offset, subSize), subSize);
    PixelIndex(Local(c, offset, subSize), subSize)
  }

  /** The pixels `getSubImage(offset, subSize)` returns, in the sub-image's
      own layout. */
  function SubPixels<P>(pixels: seq<P>, size: seq<nat>, offset: seq<nat>, subSize: seq<nat>): (r: seq<P>)
    requires |pixels| == PixelCount(size) && FitsIn(offset, subSize, size)
    ensures |r| == PixelCount(subSize)
  {
    seq(PixelCount(subSize), k requires 0 <= k < PixelCount(subSize) => pixels[ShiftedIndex(k, offset, subSize, size)])
  }

  /** Pixel k of the image once the first `limit` pixels of sub have been
      written into their place. */
  function PastedAt<P>(pixels: seq<P>, size: seq<nat>, offset: seq<nat>, subSize: seq<nat>, sub: seq<P>, limit: nat, k: nat): P
    requires |pixels| == PixelCount(size) && |sub| == PixelCount(subSize) && FitsIn(offset, subSize, size)
    requires k < |pixels|
  {
    var c := Coordinates(k, size);
    if InRegion(c, offset, subSize) && SubIndex(c, offset, subSize) < limit then sub[SubIndex(c, offset, subSize)]
    else pixels[k]
  }

  /** The image once the first `limit` pixels of sub have been written. */
  function PastedPrefix<P>(pixels: seq<P>, size: seq<nat>, offset: seq<nat>, subSize: seq<nat>, sub: seq<P>, limit: nat): (r: seq<P>)
    requires |pixels| == PixelCount(size) && |sub| == PixelCount(subSize) && FitsIn(offset, subSize, size)
    ensures |r| == |pixels|
  {
    seq(|pixels|, k requires 0 <= k < |pixels| => PastedAt(pixels, size, offset, subSize, sub, limit, k))
  }

  /** The pixels `setSubImage(offset, sub)` leaves behind. */
  function Pasted<P>(pixels: seq<P>, size: seq<nat>, offset: seq<nat>, subSize: seq<nat>, sub: seq<P>): (r: seq<P>)
    requires |pixels| == PixelCount(size) && |sub| == PixelCount(subSize) && FitsIn(offset, subSize, size)
    ensures |r| == |pixels|
  {
    PastedPrefix(pixels, size, offset, subSize, sub, |sub|)
  }

  /** Nothing written yet: the image as it was. */
  lemma PastedNothing<P>(pixels: seq<P>, size: seq<nat>, offset: seq<nat>, subSize: seq<nat>, sub: seq<P>)
    requires |pixels| == PixelCount(size) && |sub| == PixelCount(subSize) && FitsIn(offset, subSize, size)
    ensures PastedPrefix(pixels, size, offset, subSize, sub, 0) == pixels
  {
  }

  /** The coordinates in the image of pixel j of the sub-image. */
  lemma ShiftedCoordinates(j: nat, offset: seq<nat>, subSize: seq<nat>, size: seq<nat>)
    requires FitsIn(offset, subSize, size) && j < PixelCount(subSize)
    ensures Coordinates(ShiftedIndex(j, offset, subSize, size), size) == Plus(offset, Coordinates(j, subSize))
  {
    var q := Plus(offset, Coordinates(j, subSize));
    ShiftInBounds(Coordinates(j, subSize), offset, subSize, size);
    CoordinatesOfIndex(q, size);
  }

  /** Shifting in-bounds coordinates by offset lands in the region, and
      Local undoes the shift. */
  lemma LocalOfShifted(p: seq<nat>, offset: seq<nat>, subSize: seq<nat>)
    requires |offset| == |subSize| && InBounds(p, subSize)
    ensures InRegion(Plus(offset, p), offset, subSize) && Local(Plus(offset, p), offset, subSize) == p
  {
    var q := Plus(offset, p);
    assert InRegion(q, offset, subSize);
    var l := Local(q, offset, subSize);
    assert forall i :: 0 <= i < |p| ==> l[i] == p[i];
  }

  /** Pixel j of the sub-image lands at coordinates offset + Coordinates(j),
      in the region, with sub-image index j. */
  lemma ShiftedInRegion(j: nat, offset: seq<nat>, subSize: seq<nat>, size: seq<nat>)
    requires FitsIn(offset, subSize, size) && j < PixelCount(subSize)
    ensures var c := Coordinates(ShiftedIndex(j, offset, subSize, size), size);
      InRegion(c, offset, subSize) && SubIndex(c, offset, subSize) == j
  {
    var p := Coordinates(j, subSize);
    ShiftedCoordinates(j, offset, subSize, size);
    LocalOfShifted(p, offset, subSize);
    IndexOfCoordinates(j, subSize);
  }

  /** A pixel of the region is where its sub-image index sends it. */
  lemma RegionShifted(k: nat, offset: seq<nat>, subSize: seq<nat>, size: seq<nat>)
    requires FitsIn(offset, subSize, size) && k < PixelCount(size)
    requires InRegion(Coordinates(k, size), offset, subSize)
    ensures ShiftedIndex(SubIndex(Coordinates(k, size), offset, subSize), offset, subSize, size) == k
  {
    var c := Coordinates(k, size);
    var p := Local(c, offset, subSize);
    CoordinatesOfIndex(p, subSize);
    IndexOfCoordinates(k, size);
  }

  /** Once pixel j of sub is written, its place holds it. */
  lemma PastedWritten<P>(pixels: seq<P>, size: seq<nat>, offset: seq<nat>, subSize: seq<nat>, sub: seq<P>, limit: nat, j: nat)
    requires |pixels| == PixelCount(size) && |sub| == PixelCount(subSize) && FitsIn(offset, subSize, size)
    requires j < limit && j < |sub|
    ensures PastedPrefix(pixels, size, offset, subSize, sub, limit)[ShiftedIndex(j, offset, subSize, size)] == sub[j]
  {
    ShiftedInRegion(j, offset, subSize, size);
  }

  /** Writing pixel j of sub leaves every other place as it was. */
  lemma PastedElsewhere<P>(pixels: seq<P>, size: seq<nat>, offset: seq<nat>, subSize: seq<nat>, sub: seq<P>, j: nat, k: nat)
    requires |pixels| == PixelCount(size) && |sub| == PixelCount(subSize) && FitsIn(offset, subSize, size)
    requires j < |sub| && k < |pixels| && k != ShiftedIndex(j, offset, subSize, size)
    ensures PastedPrefix(pixels, size, offset, subSize, sub, j + 1)[k] == PastedPrefix(pixels, size, offset, subSize, sub, j)[k]
  {
    if InRegion(Coordinates(k, size), offset, subSize) {
      RegionShifted(k, offset, subSize, size);
    }
  }

  /** Writing sub-image pixel j moves the written prefix one step on. */
  lemma PasteStep<P>(pixels: seq<P>, size: seq<nat>, offset: seq<nat>, subSize: seq<nat>, sub: seq<P>, j: nat)
    requires |pixels| == PixelCount(size) && |sub| == PixelCount(subSize) && FitsIn(offset, subSize, size)
    requires j < |sub|
    ensures PastedPrefix(pixels, size, offset, subSize, sub, j)[ShiftedIndex(j, offset, subSize, size) := sub[j]]
         == PastedPrefix(pixels, size, offset, subSize, sub, j + 1)
  {
    var t := ShiftedIndex(j, offset, subSize, size);
    var A := PastedPrefix(pixels, size, offset, subSize, sub, j)[t := sub[j]];
    var B := PastedPrefix(pixels, size, offset, subSize, sub, j + 1);
    forall k | 0 <= k < |pixels| ensures A[k] == B[k] {
      if k == t {
        PastedWritten(pixels, size, offset, subSize, sub, j + 1, j);
      } else {
        PastedElsewhere(pixels, size, offset, subSize, sub, j, k);
      }
    }
  }

  /** What `setSubImage` writes comes back from `getSubImage` of the same region. */
  lemma SubPixelsOfPasted<P>(pixels: seq<P>, size: seq<nat>, offset: seq<nat>, subSize: seq<nat>, sub: seq<P>)
    requires |pixels| == PixelCount(size) && |sub| == PixelCount(subSize) && FitsIn(offset, subSize, size)
    ensures SubPixels(Pasted(pixels, size, offset, subSize, sub), size, offset, subSize) == sub
  {
    var r := SubPixels(Pasted(pixels, size, offset, subSize, sub), size, offset, subSize);
    forall j | 0 <= j < |sub| ensures r[j] == sub[j] {
      PastedWritten(pixels, size, offset, subSize, sub, |sub|, j);
    }
  }

  /** Writing back the sub-image just read changes nothing. */
  lemma PastedSubPixels<P>(pixels: seq<P>, size: seq<nat>, offset: seq<nat>, subSize: seq<nat>)
    requires |pixels| == PixelCount(size) && FitsIn(offset, subSize, size)
    ensures Pasted(pixels, size, offset, subSize, SubPixels(pixels, size, offset, subSize)) == pixels
  {
    var sub := SubPixels(pixels, size, offset, subSize);
    var r := Pasted(pixels, size, offset, subSize, sub);
    forall k | 0 <= k < |pixels| ensures r[k] == pixels[k] {
      if InRegion(Coordinates(k, size), offset, subSize) {
        RegionShifted(k, offset, subSize, size);
      }
    }
  }

  /** In coordinates: a pixel of the region holds the matching pixel of sub,
      and every other pixel is unchanged. */
  lemma PastedAtCoordinates<P>(pixels: seq<P>, size: seq<nat>, offset: seq<nat>, subSize: seq<nat>, sub: seq<P>, c: seq<nat>)
    requires |pixels| == PixelCount(size) && |sub| == PixelCount(subSize) && FitsIn(offset, subSize, size)
    requires InBounds(c, size)
    ensures PixelIndex(c, size) < |pixels|
    ensures InRegion(c, offset, subSize) ==>
      Pasted(pixels, size, offset, subSize, sub)[PixelIndex(c, size)] == sub[SubIndex(c, offset, subSize)]
    ensures !InRegion(c, offset, subSize) ==>
      Pasted(pixels, size, offset, subSize, sub)[PixelIndex(c, size)] == pixels[PixelIndex(c, size)]
  {
    CoordinatesOfIndex(c, size);
    var k := PixelIndex(c, size);
    assert Pasted(pixels, size, offset, subSize, sub)[k] == PastedAt(pixels, size, offset, subSize, sub, |sub|, k);
    assert Coordinates(k, size) == c;
  }

  /** In coordinates: pixel p of the extracted sub-image is pixel offset + p
      of the image. */
  lemma SubPixelsAtCoordinates<P>(pixels: seq<P>, size: seq<nat>, offset: seq<nat>, subSize: seq<nat>, p: seq<nat>)
    requires |pixels| == PixelCount(size) && FitsIn(offset, subSize, size)
    requires InBounds(p, subSize)
    ensures PixelIndex(p, subSize) < PixelCount(subSize)
    ensures InBounds(Plus(offset, p), size) && PixelIndex(Plus(offset, p), size) < |pixels|
    ensures SubPixels(pixels, size, offset, subSize)[PixelIndex(p, subSize)] == pixels[PixelIndex(Plus(offset, p), size)]
  {
    CoordinatesOfIndex(p, subSize);
    ShiftInBounds(p, offset, subSize, size);
    IndexBound(Plus(offset, p), size);
  }
}
