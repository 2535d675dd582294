/**
 * `getScratchedPercentage` (scratch-card.js:196-209): the sampled
 * `ImageData` is a buffer of RGBA bytes, four per pixel; a pixel counts as
 * scratched when its alpha byte (offset 3) is 0, and the result is the
 * number of scratched pixels over the number of pixels. The quotient is
 * kept as the pair (scratched, total). The empty sample gets the defined
 * value `Coverage(0, 0)`, which reaches no threshold; the card never
 * computes it, since `getImageData` throws on an empty rectangle before
 * the loop runs.
 */
module Coverage {

  /** A byte of a canvas bitmap. */
  type Byte = b: int | 0 <= b < 256

  /** Scratched pixels out of sampled pixels. */
  datatype Coverage = Coverage(cleared: nat, total: nat)

  /** The alpha byte of pixel `k` of an RGBA buffer. */
  function Alpha(data: seq<int>, k: nat): int
    requires k < |data| / 4
  {
    data[4 * k + 3]
  }

  /** The number of pixels among the first `k` whose alpha byte is 0. */
  function ClearedAmong(data: seq<int>, k: nat): (n: nat)
    requires k <= |data| / 4
    ensures n <= k
  {
    if k == 0 then 0
    else ClearedAmong(data, k - 1) + (if Alpha(data, k - 1) == 0 then 1 else 0)
  }

  /** The number of pixels whose alpha byte is 0; bytes short of a whole pixel are not a pixel. */
  function Cleared(data: seq<int>): (n: nat)
    ensures n <= |data| / 4
  {
    ClearedAmong(data, |data| / 4)
  }

  /** Coverage of a sample: its scratched pixels out of all its pixels. */
  function CoverageOf(data: seq<int>): Coverage
  {
    Coverage(Cleared(data), |data| / 4)
  }

  /** The coverage as a fraction; only defined for a non-empty sample. */
  function Fraction(c: Coverage): real
    requires c.total > 0
  {
    c.cleared as real / c.total as real
  }

  /** What the quotient tells about the counts. */
  lemma FractionFacts(c: Coverage)
    requires c.total > 0
    ensures 0.0 <= Fraction(c)
    ensures c.cleared <= c.total ==> Fraction(c) <= 1.0
    ensures Fraction(c) == 0.0 <==> c.cleared == 0
    ensures Fraction(c) == 1.0 <==> c.cleared == c.total
  {
    var x, t := c.cleared as real, c.total as real;
    var f := x / t;
    assert f * t == x;
    if f == 1.0 { assert x == t; }
    if x == t { assert f == 1.0; }
  }

  /**
   * `curPercentage >= percentage`, for a sample of at least one pixel. The
   * empty sample is given the answer "no": the source never measures one,
   * because `getImageData` throws on an empty rectangle.
   */
  predicate Reaches(c: Coverage, threshold: real) {
    c.total > 0 && Fraction(c) >= threshold
  }

  /** The loop of `getScratchedPercentage`, stepping four bytes at a time. */
  method ScratchedPercentage(data: seq<int>) returns (c: Coverage)
    requires |data| % 4 == 0
    ensures c == CoverageOf(data)
    ensures c.total > 0 ==> 0.0 <= Fraction(c) <= 1.0
  {
    var scratched := 0;
    var i := 0;
    while i < |data|
      invariant 0 <= i <= |data| && i % 4 == 0
      invariant scratched == ClearedAmong(data, i / 4)
    {
      if data[i + 3] == 0 {
        scratched := scratched + 1;
      }
      i := i + 4;
    }
    c := Coverage(scratched, |data| / 4);
    if c.total > 0 {
      FractionFacts(c);
    }
  }

  /** Bytes appended after the first `k` pixels do not change their count. */
  lemma {:induction false} ClearedAmongPrefix(a: seq<int>, b: seq<int>, k: nat)
    requires k <= |a| / 4
    ensures ClearedAmong(a + b, k) == ClearedAmong(a, k)
  {
    if k > 0 {
      ClearedAmongPrefix(a, b, k - 1);
      assert Alpha(a + b, k - 1) == Alpha(a, k - 1);
    }
  }

  /** Past a buffer of whole pixels, the count goes on with the next buffer's. */
  lemma {:induction false} ClearedAmongShift(a: seq<int>, b: seq<int>, pixels: nat, j: nat)
    requires |a| == 4 * pixels && j <= |b| / 4
    ensures ClearedAmong(a + b, pixels + j) == Cleared(a) + ClearedAmong(b, j)
  {
    if j == 0 {
      ClearedAmongPrefix(a, b, pixels);
    } else {
      ClearedAmongShift(a, b, pixels, j - 1);
      assert Alpha(a + b, pixels + j - 1) == Alpha(b, j - 1);
    }
  }

  /** Counts add up over consecutive buffers, the first made of `pixels` whole pixels. */
  lemma ClearedConcat(a: seq<int>, b: seq<int>, pixels: nat)
    requires |a| == 4 * pixels
    ensures Cleared(a + b) == Cleared(a) + Cleared(b)
  {
    ClearedAmongShift(a, b, pixels, |b| / 4);
  }

  /** A single pixel counts once exactly when its alpha byte is 0. */
  lemma ClearedPixel(pixel: seq<int>)
    requires |pixel| == 4
    ensures Cleared(pixel) == if pixel[3] == 0 then 1 else 0
  {
  }

  /** Among the first `k` pixels none is scratched exactly when none has alpha 0. */
  lemma {:induction false} NoneClearedAmong(data: seq<int>, k: nat)
    requires k <= |data| / 4
    ensures ClearedAmong(data, k) == 0 <==> forall j :: 0 <= j < k ==> Alpha(data, j) != 0
  {
    if k > 0 {
      NoneClearedAmong(data, k - 1);
    }
  }

  /** No pixel is scratched exactly when no alpha byte is 0. */
  lemma NoneCleared(data: seq<int>)
    ensures Cleared(data) == 0 <==> forall k :: 0 <= k < |data| / 4 ==> Alpha(data, k) != 0
  {
    NoneClearedAmong(data, |data| / 4);
  }

  /** Among the first `k` pixels all are scratched exactly when all have alpha 0. */
  lemma {:induction false} AllClearedAmong(data: seq<int>, k: nat)
    requires k <= |data| / 4
    ensures ClearedAmong(data, k) == k <==> forall j :: 0 <= j < k ==> Alpha(data, j) == 0
  {
    if k > 0 {
      AllClearedAmong(data, k - 1);
    }
  }

  /** Every pixel is scratched exactly when every alpha byte is 0. */
  lemma AllCleared(data: seq<int>)
    ensures Cleared(data) == |data| / 4 <==> forall k :: 0 <= k < |data| / 4 ==> Alpha(data, k) == 0
  {
    AllClearedAmong(data, |data| / 4);
  }

  lemma {:induction false} ClearedAmongMonotone(before: seq<int>, after: seq<int>, k: nat)
    requires k <= |before| / 4 && |after| == |before|
    requires forall j :: 0 <= j < |before| / 4 && Alpha(before, j) == 0 ==> Alpha(after, j) == 0
    ensures ClearedAmong(before, k) <= ClearedAmong(after, k)
  {
    if k > 0 {
      ClearedAmongMonotone(before, after, k - 1);
    }
  }

  /**
   * If every pixel scratched in `before` is scratched in `after` (same
   * size), `after` has at least as many scratched pixels.
   */
  lemma ClearedMonotone(before: seq<int>, after: seq<int>)
    requires |after| == |before|
    requires forall k :: 0 <= k < |before| / 4 && Alpha(before, k) == 0 ==> Alpha(after, k) == 0
    ensures Cleared(before) <= Cleared(after)
  {
    ClearedAmongMonotone(before, after, |before| / 4);
  }

  /** The fraction lies in [0, 1]: 0 with nothing scratched, 1 with everything. */
  lemma FractionBounds(data: seq<int>)
    requires |data| >= 4
    ensures 0.0 <= Fraction(CoverageOf(data)) <= 1.0
    ensures Fraction(CoverageOf(data)) == 0.0 <==> forall k :: 0 <= k < |data| / 4 ==> Alpha(data, k) != 0
    ensures Fraction(CoverageOf(data)) == 1.0 <==> forall k :: 0 <= k < |data| / 4 ==> Alpha(data, k) == 0
  {
    NoneCleared(data);
    AllCleared(data);
    FractionFacts(CoverageOf(data));
  }

  /**
   * Once reached, the threshold stays reached while more pixels of the
   * same sample get scratched.
   */
  lemma ReachesMonotone(c: Coverage, d: Coverage, threshold: real)
    requires c.total == d.total && c.cleared <= d.cleared
    requires Reaches(c, threshold)
    ensures Reaches(d, threshold)
  {
    var t := c.total as real;
    assert c.cleared as real / t <= d.cleared as real / t by {
      assert (d.cleared as real - c.cleared as real) / t >= 0.0;
    }
  }
}
