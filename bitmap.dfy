/**
 * The overlay canvas as its bitmap: four RGBA bytes for each of its
 * `width` by `height` pixels, in row-major order, the layout `getImageData` returns.
 *
 * Two canvas operations matter to the scratch card. A stroke drawn with
 * the composite mode "destination-out" (scratch-card.js:302-303) and the
 * opaque stroke colour of scratch-card.js:244 leaves every pixel it covers
 * transparent black; which pixels a path covers is geometry left to the
 * canvas, so a stroke is given here as the pixels it covers. Reading back a
 * rectangle (`getImageData`, scratch-card.js:201) yields its pixels, and
 * transparent black for those that lie outside the canvas.
 */
module Bitmap {
  import opened Geometry
  import opened Coverage

  predicate InBounds(p: Point, width: nat, height: nat) {
    0 <= p.x < width && 0 <= p.y < height
  }

  /** Position of a pixel in row-major order: `y` rows of `width` pixels, then `x`. */
  function PixelIndex(p: Point, width: nat): int
    requires p.y >= 0
  {
    Times(p.y, width) + p.x
  }

  lemma PixelIndexInRange(p: Point, width: nat, height: nat)
    requires InBounds(p, width, height)
    ensures 0 <= PixelIndex(p, width) < Times(height, width)
  {
    TimesGrows(p.y, height, width);
  }

  /** Distinct in-bounds pixels have distinct positions. */
  lemma PixelIndexInjective(p: Point, q: Point, width: nat, height: nat)
    requires InBounds(p, width, height) && InBounds(q, width, height)
    requires PixelIndex(p, width) == PixelIndex(q, width)
    ensures p == q
  {
    if p.y < q.y {
      TimesGrows(p.y, q.y, width);
    } else if q.y < p.y {
      TimesGrows(q.y, p.y, width);
    }
  }

  /** Byte `i` of the bitmap belongs to a pixel the stroke covers. */
  predicate Covers(stroke: seq<Point>, width: nat, height: nat, i: int) {
    exists p :: p in stroke && InBounds(p, width, height) && i / 4 == PixelIndex(p, width)
  }

  /** The bitmap after a destination-out stroke over the given pixels. */
  function Erased(bitmap: seq<Byte>, width: nat, height: nat, stroke: seq<Point>): (r: seq<Byte>)
    requires |bitmap| == 4 * Times(height, width)
    ensures |r| == |bitmap|
  {
    seq(|bitmap|, i requires 0 <= i < |bitmap| => if Covers(stroke, width, height, i) then 0 else bitmap[i])
  }

  /**
   * The stroke itself: clears, in place, the four bytes of every in-bounds
   * pixel it covers.
   */
  method EraseStroke(pixels: array<Byte>, width: nat, height: nat, stroke: seq<Point>)
    requires pixels.Length == 4 * Times(height, width)
    modifies pixels
    ensures pixels[..] == Erased(old(pixels[..]), width, height, stroke)
  {
    ghost var original := old(pixels[..]);
    var k := 0;
    while k < |stroke|
      invariant 0 <= k <= |stroke|
      invariant pixels[..] == Erased(original, width, height, stroke[..k])
    {
      var p := stroke[k];
      ghost var before := pixels[..];
      if InBounds(p, width, height) {
        PixelIndexInRange(p, width, height);
        var base := 4 * PixelIndex(p, width);
        pixels[base] := 0;
        pixels[base + 1] := 0;
        pixels[base + 2] := 0;
        pixels[base + 3] := 0;
      }
      StrokeStep(original, width, height, stroke, k, before, pixels[..]);
      k := k + 1;
    }
    assert stroke[..k] == stroke;
  }

  /** One point of the stroke: its four bytes join the cleared ones. */
  lemma StrokeStep(original: seq<Byte>, width: nat, height: nat, stroke: seq<Point>, k: nat,
                   before: seq<Byte>, after: seq<Byte>)
    requires |original| == 4 * Times(height, width) && k < |stroke|
    requires before == Erased(original, width, height, stroke[..k])
    requires |after| == |before|
    requires forall i :: 0 <= i < |after| ==>
               after[i] == if InBounds(stroke[k], width, height) && i / 4 == PixelIndex(stroke[k], width)
                           then 0 else before[i]
    ensures after == Erased(original, width, height, stroke[..k + 1])
  {
    var next := Erased(original, width, height, stroke[..k + 1]);
    assert stroke[..k + 1] == stroke[..k] + [stroke[k]];
    forall i | 0 <= i < |after|
      ensures after[i] == next[i]
    {
      if Covers(stroke[..k + 1], width, height, i) {
        var p :| p in stroke[..k + 1] && InBounds(p, width, height) && i / 4 == PixelIndex(p, width);
        if p != stroke[k] {
          assert p in stroke[..k];
          assert Covers(stroke[..k], width, height, i);
        }
      } else {
        assert !Covers(stroke[..k], width, height, i);
      }
    }
  }

  // ---------------------------------------------------------------------
  // getImageData over a rectangle
  // ---------------------------------------------------------------------

  /** The four bytes `getImageData` gives for one pixel: transparent black off the canvas. */
  function PixelBytes(bitmap: seq<Byte>, width: nat, height: nat, p: Point): (r: seq<Byte>)
    ensures |r| == 4
  {
    if InBounds(p, width, height) && 4 * PixelIndex(p, width) + 4 <= |bitmap| then
      var base := 4 * PixelIndex(p, width);
      bitmap[base..base + 4]
    else [0, 0, 0, 0]
  }

  /** The pixels of row `y` of `area`, left to right. */
  function RowPoints(area: Rect, y: int): (r: seq<Point>)
    ensures |r| == area.width
    ensures forall p :: p in r ==> p.y == y && area.left <= p.x < area.left + area.width
  {
    seq(area.width, i => Point(area.left + i, y))
  }

  /** The pixels of the first `m` rows of `area`, in row-major order. */
  function AreaPoints(area: Rect, m: nat): (r: seq<Point>)
    ensures |r| == Times(m, area.width)
    ensures forall p :: p in r ==> area.top <= p.y < area.top + m && area.left <= p.x < area.left + area.width
  {
    if m == 0 then []
    else AreaPoints(area, m - 1) + RowPoints(area, area.top + m - 1)
  }

  /** The bytes of the listed pixels, four each, in order. */
  function Bytes(bitmap: seq<Byte>, width: nat, height: nat, points: seq<Point>): (r: seq<Byte>)
    ensures |r| == 4 * |points|
  {
    if points == [] then []
    else Bytes(bitmap, width, height, points[..|points| - 1]) + PixelBytes(bitmap, width, height, points[|points| - 1])
  }

  /**
   * The bytes `getImageData(area.left, area.top, area.width, area.height)`
   * returns: four for each of the area's pixels, row by row.
   */
  function Sample(bitmap: seq<Byte>, width: nat, height: nat, area: Rect): (r: seq<Byte>)
    ensures |r| == 4 * Times(area.height, area.width)
  {
    Bytes(bitmap, width, height, AreaPoints(area, area.height))
  }

  /** Whether the pixel `getImageData` reports at `p` is scratched (alpha 0). */
  predicate ScratchedAt(bitmap: seq<Byte>, width: nat, height: nat, p: Point) {
    PixelBytes(bitmap, width, height, p)[3] == 0
  }

  /** The number of scratched pixels among the listed ones. */
  function ScratchedCount(bitmap: seq<Byte>, width: nat, height: nat, points: seq<Point>): nat {
    if points == [] then 0
    else ScratchedCount(bitmap, width, height, points[..|points| - 1]) +
         (if ScratchedAt(bitmap, width, height, points[|points| - 1]) then 1 else 0)
  }

  /** Counting alpha bytes of the listed pixels' bytes counts the scratched pixels. */
  lemma {:induction false} BytesCount(bitmap: seq<Byte>, width: nat, height: nat, points: seq<Point>)
    ensures Cleared(Bytes(bitmap, width, height, points)) == ScratchedCount(bitmap, width, height, points)
  {
    if points != [] {
      var init := points[..|points| - 1];
      var q := PixelBytes(bitmap, width, height, points[|points| - 1]);
      BytesCount(bitmap, width, height, init);
      ClearedConcat(Bytes(bitmap, width, height, init), q, |init|);
      ClearedPixel(q);
    }
  }

  /**
   * The coverage of a sample counts the area's scratched pixels: the
   * byte-level count of `getScratchedPercentage` agrees with a count over
   * the pixels of the rectangle.
   */
  lemma SampleCount(bitmap: seq<Byte>, width: nat, height: nat, area: Rect)
    ensures CoverageOf(Sample(bitmap, width, height, area)) ==
              Coverage(ScratchedCount(bitmap, width, height, AreaPoints(area, area.height)), Times(area.height, area.width))
  {
    BytesCount(bitmap, width, height, AreaPoints(area, area.height));
  }

  /** Pixels scratched in one bitmap and also in another give a count at least as large. */
  lemma {:induction false} CountMonotone(b1: seq<Byte>, b2: seq<Byte>, width: nat, height: nat, points: seq<Point>)
    requires forall p :: p in points && ScratchedAt(b1, width, height, p) ==> ScratchedAt(b2, width, height, p)
    ensures ScratchedCount(b1, width, height, points) <= ScratchedCount(b2, width, height, points)
  {
    if points != [] {
      CountMonotone(b1, b2, width, height, points[..|points| - 1]);
    }
  }

  /** When all listed pixels are scratched, or none is, the count is all or nothing. */
  lemma {:induction false} CountUniform(bitmap: seq<Byte>, width: nat, height: nat, points: seq<Point>, scratched: bool)
    requires forall p :: p in points ==> ScratchedAt(bitmap, width, height, p) == scratched
    ensures ScratchedCount(bitmap, width, height, points) == if scratched then |points| else 0
  {
    if points != [] {
      CountUniform(bitmap, width, height, points[..|points| - 1], scratched);
    }
  }

  /** Pixels that read the same give the same bytes. */
  lemma {:induction false} BytesAgree(b1: seq<Byte>, b2: seq<Byte>, width: nat, height: nat, points: seq<Point>)
    requires forall p :: p in points ==> PixelBytes(b1, width, height, p) == PixelBytes(b2, width, height, p)
    ensures Bytes(b1, width, height, points) == Bytes(b2, width, height, points)
  {
    if points != [] {
      BytesAgree(b1, b2, width, height, points[..|points| - 1]);
    }
  }

  /** What a stroke does to the reported pixel at `p`. */
  lemma ErasedPixel(bitmap: seq<Byte>, width: nat, height: nat, stroke: seq<Point>, p: Point)
    requires |bitmap| == 4 * Times(height, width)
    ensures var erased := Erased(bitmap, width, height, stroke);
            (p in stroke && InBounds(p, width, height) ==> ScratchedAt(erased, width, height, p)) &&
            (ScratchedAt(bitmap, width, height, p) ==> ScratchedAt(erased, width, height, p)) &&
            (!InBounds(p, width, height) || (forall s :: s in stroke && InBounds(s, width, height) ==> s != p) ==>
              PixelBytes(erased, width, height, p) == PixelBytes(bitmap, width, height, p))
  {
    var erased := Erased(bitmap, width, height, stroke);
    if InBounds(p, width, height) {
      PixelIndexInRange(p, width, height);
      var base := 4 * PixelIndex(p, width);
      forall i | base <= i < base + 4
        ensures i / 4 == PixelIndex(p, width)
      {
      }
      if p in stroke {
        assert Covers(stroke, width, height, base + 3);
      }
      if forall s :: s in stroke && InBounds(s, width, height) ==> s != p {
        forall i | base <= i < base + 4
          ensures erased[i] == bitmap[i]
        {
          if Covers(stroke, width, height, i) {
            var s :| s in stroke && InBounds(s, width, height) && i / 4 == PixelIndex(s, width);
            PixelIndexInjective(p, s, width, height);
          }
        }
        assert erased[base..base + 4] == bitmap[base..base + 4];
      }
    }
  }

  /**
   * A stroke never makes a scratched pixel opaque again, so the scratched
   * count of any fixed area never decreases.
   */
  lemma EraseNeverUnscratches(bitmap: seq<Byte>, width: nat, height: nat, area: Rect, stroke: seq<Point>)
    requires |bitmap| == 4 * Times(height, width)
    ensures var before := Sample(bitmap, width, height, area);
            var after := Sample(Erased(bitmap, width, height, stroke), width, height, area);
            |after| == |before| && Cleared(before) <= Cleared(after)
  {
    var erased := Erased(bitmap, width, height, stroke);
    forall p | InRect(p, area) && ScratchedAt(bitmap, width, height, p)
      ensures ScratchedAt(erased, width, height, p)
    {
      ErasedPixel(bitmap, width, height, stroke, p);
    }
    CountMonotone(bitmap, erased, width, height, AreaPoints(area, area.height));
    SampleCount(bitmap, width, height, area);
    SampleCount(erased, width, height, area);
  }

  /** Every area pixel lies on the canvas. */
  predicate AreaOnCanvas(area: Rect, width: nat, height: nat) {
    0 <= area.left && area.left + area.width <= width &&
    0 <= area.top && area.top + area.height <= height
  }

  /**
   * A stroke that covers no pixel of the area leaves the sample of the
   * area exactly as it was.
   */
  lemma StrokeOutsideArea(bitmap: seq<Byte>, width: nat, height: nat, area: Rect, stroke: seq<Point>)
    requires |bitmap| == 4 * Times(height, width)
    requires forall p :: p in stroke ==> !InRect(p, area)
    ensures Sample(Erased(bitmap, width, height, stroke), width, height, area) == Sample(bitmap, width, height, area)
  {
    var erased := Erased(bitmap, width, height, stroke);
    forall p | InRect(p, area)
      ensures PixelBytes(erased, width, height, p) == PixelBytes(bitmap, width, height, p)
    {
      ErasedPixel(bitmap, width, height, stroke, p);
    }
    BytesAgree(erased, bitmap, width, height, AreaPoints(area, area.height));
  }

  /** A stroke over every pixel of an on-canvas area scratches the whole sample. */
  lemma StrokeOverArea(bitmap: seq<Byte>, width: nat, height: nat, area: Rect, stroke: seq<Point>)
    requires |bitmap| == 4 * Times(height, width)
    requires AreaOnCanvas(area, width, height)
    requires forall p :: InRect(p, area) ==> p in stroke
    ensures var s := Sample(Erased(bitmap, width, height, stroke), width, height, area);
            Cleared(s) == |s| / 4
  {
    var erased := Erased(bitmap, width, height, stroke);
    forall p | InRect(p, area)
      ensures ScratchedAt(erased, width, height, p)
    {
      ErasedPixel(bitmap, width, height, stroke, p);
    }
    CountUniform(erased, width, height, AreaPoints(area, area.height), true);
    SampleCount(erased, width, height, area);
  }

  /** On a canvas with no transparent pixel, an on-canvas area has nothing scratched. */
  lemma OpaqueUnscratched(bitmap: seq<Byte>, width: nat, height: nat, area: Rect)
    requires |bitmap| == 4 * Times(height, width)
    requires AreaOnCanvas(area, width, height)
    requires forall k :: 0 <= k < Times(height, width) ==> Alpha(bitmap, k) != 0
    ensures Cleared(Sample(bitmap, width, height, area)) == 0
  {
    forall p | InRect(p, area)
      ensures !ScratchedAt(bitmap, width, height, p)
    {
      PixelIndexInRange(p, width, height);
      assert Alpha(bitmap, PixelIndex(p, width)) != 0;
    }
    CountUniform(bitmap, width, height, AreaPoints(area, area.height), false);
    SampleCount(bitmap, width, height, area);
  }
}
