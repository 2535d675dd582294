/** Points and rectangles in CSS pixels, shared by the other modules. */
module Geometry {

  /** A pair of coordinates: an (offsetLeft, offsetTop) pair, a page point or a canvas pixel. */
  datatype Point = Point(x: int, y: int)

  /** A rectangle `[left, top, width, height]`, as `validArea` and `getImageData` take it. */
  datatype Rect = Rect(left: int, top: int, width: nat, height: nat)

  function Add(p: Point, q: Point): Point {
    Point(p.x + q.x, p.y + q.y)
  }

  function Sub(p: Point, q: Point): Point {
    Point(p.x - q.x, p.y - q.y)
  }

  /**
   * `rows` rows of `length` pixels. Written as a recursion so that the
   * solver never reasons about products of variables; `TimesIsProduct`
   * says it is the product.
   */
  function Times(rows: nat, length: nat): nat {
    if rows == 0 then 0 else Times(rows - 1, length) + length
  }

  lemma {:induction false} TimesIsProduct(rows: nat, length: nat)
    ensures Times(rows, length) == rows * length
  {
    if rows > 0 {
      TimesIsProduct(rows - 1, length);
      assert (rows - 1) * length + length == rows * length;
    }
  }

  /** Whole rows before row `b` end before row `b` starts. */
  lemma {:induction false} TimesGrows(a: nat, b: nat, length: nat)
    requires a < b
    ensures Times(a, length) + length <= Times(b, length)
    decreases b - a
  {
    if a + 1 < b {
      TimesGrows(a + 1, b, length);
    }
  }

  predicate InRect(p: Point, r: Rect) {
    r.left <= p.x < r.left + r.width && r.top <= p.y < r.top + r.height
  }
}
