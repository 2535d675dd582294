/**
 * `getOffset` (scratch-card.js:41-52): the page offset of an element is its
 * own (offsetLeft, offsetTop) plus those of every ancestor on its
 * `offsetParent` chain, which ends at a null parent. The chain is given as
 * the sequence of the ancestors' offsets, nearest first.
 */
module Offset {
  import opened Geometry

  /** The sum of a sequence of offsets. */
  function Total(boxes: seq<Point>): Point {
    if boxes == [] then Point(0, 0) else Add(boxes[0], Total(boxes[1..]))
  }

  /** Offsets add up piecewise along a chain. */
  lemma {:induction false} TotalConcat(a: seq<Point>, b: seq<Point>)
    ensures Total(a + b) == Add(Total(a), Total(b))
  {
    if a == [] {
      assert a + b == b;
    } else {
      assert (a + b)[1..] == a[1..] + b;
      TotalConcat(a[1..], b);
    }
  }

  /**
   * The page offset of an element is its offset relative to any ancestor
   * on its chain (its own offset and those of the ancestors below that one)
   * plus that ancestor's page offset.
   */
  lemma PageOffsetThroughAncestor(elem: Point, parents: seq<Point>, i: nat)
    requires i < |parents|
    ensures Total([elem] + parents) == Add(Total([elem] + parents[..i]), Total(parents[i..]))
  {
    assert [elem] + parents == ([elem] + parents[..i]) + parents[i..];
    TotalConcat([elem] + parents[..i], parents[i..]);
  }

  /** The loop of `getOffset`, walking up the chain until the parent is null. */
  method GetOffset(elem: Point, parents: seq<Point>) returns (offset: Point)
    ensures offset == Total([elem] + parents)
  {
    offset := elem;
    var i := 0;
    while i < |parents|
      invariant 0 <= i <= |parents|
      invariant offset == Add(elem, Total(parents[..i]))
    {
      TotalConcat(parents[..i], [parents[i]]);
      assert parents[..i + 1] == parents[..i] + [parents[i]];
      offset := Point(offset.x + parents[i].x, offset.y + parents[i].y);
      i := i + 1;
    }
    assert parents[..i] == parents;
    assert ([elem] + parents)[1..] == parents;
  }
}
