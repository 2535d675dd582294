/**
 * The scratch card itself (scratch-card.js:4-10, 53-345): a gray overlay
 * canvas over an image, scratched away by dragging the pointer. A stroke
 * erases the pixels under the pointer's path; when the pointer is released
 * the share of scratched pixels in the valid area is measured, and once it
 * reaches the `percentage` option the overlay is hidden and `onComplete`
 * is called.
 *
 * Image loading, layout and event registration are outside the model: the
 * card is set up at once, and each handler is a method called with what the
 * event carries (its page coordinate) and what the canvas computes (the
 * pixels a stroke covers).
 */
module Card {
  import opened Geometry
  import opened Options
  import opened Coverage
  import opened Bitmap
  import Offset

  // ---------------------------------------------------------------------
  // The options the card reads, once merged and validated
  // ---------------------------------------------------------------------

  /** A number with no fractional part. */
  predicate Integral(v: Value) {
    v.Num? && v.n == v.n.Floor as real
  }

  /** A number usable as a canvas dimension. */
  predicate Dimension(v: Value) {
    Integral(v) && v.n >= 0.0
  }

  /** `size` is given as `[width, height]`. */
  predicate SizeGiven(options: map<string, Value>) {
    var size := Get(options, "size");
    size.Arr? && |size.items| >= 2 && Dimension(size.items[0]) && Dimension(size.items[1])
  }

  /** `validArea` is absent, or `[left, top, width, height]` with whole numbers. */
  predicate AreaGiven(options: map<string, Value>) {
    var area := Get(options, "validArea");
    !Truthy(area) ||
    (area.Arr? && |area.items| >= 4 && Integral(area.items[0]) && Integral(area.items[1]) &&
     Dimension(area.items[2]) && Dimension(area.items[3]))
  }

  /**
   * The options this model covers, once validation has passed: a `size`,
   * a numeric `validArea` if any, a `percentage` that is not a non-empty
   * string, and an `onComplete` that is a function if truthy.
   */
  predicate Supported(options: map<string, Value>) {
    Validate(options).Pass? ==>
      SizeGiven(options) && AreaGiven(options) &&
      !(Get(options, "percentage").Str? && Get(options, "percentage").s != "") &&
      (!Truthy(Get(options, "onComplete")) || Get(options, "onComplete").Func?)
  }

  /** `getCurSize`: the canvas is `size[0]` by `size[1]` pixels. */
  function CanvasWidth(options: map<string, Value>): (r: nat)
    requires SizeGiven(options)
    ensures r as real == Get(options, "size").items[0].n
  {
    Get(options, "size").items[0].n.Floor
  }

  function CanvasHeight(options: map<string, Value>): (r: nat)
    requires SizeGiven(options)
    ensures r as real == Get(options, "size").items[1].n
  {
    Get(options, "size").items[1].n.Floor
  }

  /** The rectangle sampled by `getScratchedPercentage`: `validArea`, or the whole canvas. */
  function AreaOf(options: map<string, Value>, width: nat, height: nat): (r: Rect)
    requires AreaGiven(options)
    ensures !Truthy(Get(options, "validArea")) ==> r == Rect(0, 0, width, height)
    ensures Truthy(Get(options, "validArea")) ==>
              var items := Get(options, "validArea").items;
              r.left as real == items[0].n && r.top as real == items[1].n &&
              r.width as real == items[2].n && r.height as real == items[3].n
  {
    var area := Get(options, "validArea");
    if Truthy(area) then
      Rect(area.items[0].n.Floor, area.items[1].n.Floor, area.items[2].n.Floor, area.items[3].n.Floor)
    else
      Rect(0, 0, width, height)
  }

  /**
   * The number `curPercentage >= percentage` compares against: `undefined`
   * converts to NaN, against which every comparison is false (`None`);
   * `null`, `false` and `""` convert to 0.
   */
  function ThresholdOf(percentage: Value): (r: Option<real>)
    requires !(percentage.Str? && percentage.s != "") && !IsObject(percentage)
    ensures r.None? <==> percentage == Undefined
    ensures percentage.Num? ==> r == Some(percentage.n)
    ensures !Truthy(percentage) && percentage != Undefined ==> r == Some(0.0)
  {
    match percentage
    case Undefined => None
    case Null => Some(0.0)
    case Bool(b) => Some(if b then 1.0 else 0.0)
    case Num(n) => Some(n)
    case Str(_) => Some(0.0)
  }

  /**
   * `curPercentage >= options.percentage`: false against an undefined
   * percentage, and false for the empty sample, which the card never
   * measures.
   */
  predicate Reached(c: Coverage, threshold: Option<real>)
    ensures Reached(c, threshold) ==> threshold.Some? && c.total > 0
    ensures threshold.Some? && threshold.value <= 0.0 && c.total > 0 ==> Reached(c, threshold)
    ensures threshold.Some? && threshold.value > 1.0 && c.cleared <= c.total ==> !Reached(c, threshold)
  {
    if threshold.Some? && c.total > 0 then
      FractionFacts(c);
      Reaches(c, threshold.value)
    else false
  }

  /** The overlay as painted: every pixel the background colour. */
  function Filled(colour: seq<Byte>, pixels: nat): (r: seq<Byte>)
    requires |colour| == 4
    ensures |r| == 4 * pixels
    ensures forall k :: 0 <= k < pixels ==> r[4 * k..4 * k + 4] == colour
  {
    seq(4 * pixels, i requires 0 <= i => colour[i % 4])
  }

  /** `fillRect` over the whole canvas: a fresh overlay of `pixels` pixels of one colour. */
  method Paint(colour: seq<Byte>, pixels: nat) returns (a: array<Byte>)
    requires |colour| == 4
    ensures fresh(a) && a[..] == Filled(colour, pixels)
  {
    a := new Byte[4 * pixels](i requires 0 <= i => colour[i % 4]);
    assert a[..] == Filled(colour, pixels);
  }

  /** What validation and the modelled cases tell about the merged options. */
  lemma SupportedOptions(options: map<string, Value>)
    requires Validate(options).Pass? && Supported(options)
    ensures SizeGiven(options) && AreaGiven(options)
    ensures var p := Get(options, "percentage");
            !(p.Str? && p.s != "") && !IsObject(p) && (Truthy(p) ==> p.Num?)
  {
    assert Passes(PercentageNotNumeric, options);
  }

  /** How the next stroke is composited. */
  datatype Composite = SourceOver | DestinationOut

  class ScratchCard {
    /** The merged options. */
    const options: map<string, Value>
    const width: nat
    const height: nat
    /** The rectangle whose pixels are counted. */
    const area: Rect
    const threshold: Option<real>
    /** Whether `options.onComplete` is a function to call. */
    const notifies: bool
    /** The canvas's page offset, as `getOffset` found it. */
    const canvasOffset: Point
    /** The overlay's RGBA bytes. */
    const pixels: array<Byte>

    var scratchActivated: bool
    /** The points of the current path, in canvas coordinates. */
    var path: seq<Point>
    var composite: Composite
    /** `canvas.style.opacity`, toggled to force a repaint. */
    var opacity: string
    /** `canvas.style.display == 'none'`. */
    var hidden: bool
    /** How many times `onComplete` has been called. */
    var completions: nat
    /** Whether the instance's mouseout and mouseup handler properties were set to null. */
    var handlersCleared: bool

    ghost predicate Valid()
      reads this
    {
      pixels.Length == 4 * Times(height, width) &&
      (opacity == "" || opacity == "0.999") &&
      (scratchActivated ==> path != [])
    }

    /** What `getScratchedPercentage` measures now; `None` where `getImageData` throws. */
    function CurrentCoverage(): (r: Option<Coverage>)
      reads this, pixels
      ensures r.None? <==> area.width == 0 || area.height == 0
      ensures r.Some? ==> r.value.total == Times(area.height, area.width) &&
                          r.value.cleared <= r.value.total
    {
      if area.width == 0 || area.height == 0 then None
      else
        SampleCount(pixels[..], width, height, area);
        Some(CoverageOf(Sample(pixels[..], width, height, area)))
    }

    /**
     * The setup of a card whose merged options have passed validation: the
     * canvas sized, its offset taken, the overlay painted with the
     * background colour, and no stroke in progress.
     */
    constructor (options: map<string, Value>, canvasBox: Point, offsetParents: seq<Point>, background: seq<Byte>)
      requires Validate(options).Pass? && Supported(options)
      requires |background| == 4
      ensures Valid()
      ensures this.options == options
      ensures SizeGiven(options) && width == CanvasWidth(options) && height == CanvasHeight(options)
      ensures AreaGiven(options) && area == AreaOf(options, width, height)
      ensures var p := Get(options, "percentage");
              !(p.Str? && p.s != "") && !IsObject(p) && threshold == ThresholdOf(p)
      ensures notifies == Truthy(Get(options, "onComplete"))
      ensures canvasOffset == Offset.Total([canvasBox] + offsetParents)
      ensures fresh(pixels) && pixels[..] == Filled(background, Times(height, width))
      ensures !scratchActivated && path == [] && composite == SourceOver
      ensures opacity == "" && !hidden && completions == 0 && !handlersCleared
    {
      SupportedOptions(options);
      var w, h := CanvasWidth(options), CanvasHeight(options);
      var offset := Offset.GetOffset(canvasBox, offsetParents);
      var painted := Paint(background, Times(h, w));
      this.options := options;
      width, height := w, h;
      area := AreaOf(options, w, h);
      threshold := ThresholdOf(Get(options, "percentage"));
      notifies := Truthy(Get(options, "onComplete"));
      canvasOffset := offset;
      pixels := painted;
      scratchActivated := false;
      path := [];
      composite := SourceOver;
      opacity := "";
      hidden := false;
      completions := 0;
      handlersCleared := false;
    }

    /** A page coordinate in canvas coordinates. */
    function ToCanvas(page: Point): (r: Point)
      reads this
      ensures Add(r, canvasOffset) == page
    {
      Sub(page, canvasOffset)
    }

    /** `canvasMousedownHandler`: a new path starts at the pointer. */
    method MouseDown(page: Point)
      requires Valid()
      modifies this
      ensures Valid()
      ensures scratchActivated && path == [ToCanvas(page)]
      ensures composite == old(composite) && opacity == old(opacity) && hidden == old(hidden)
      ensures completions == old(completions) && handlersCleared == old(handlersCleared)
      ensures pixels[..] == old(pixels[..])
    {
      scratchActivated := true;
      path := [ToCanvas(page)];
    }

    /**
     * `canvasMousemoveHandler`: while a stroke is in progress, extends the
     * path to the pointer and strokes it in "destination-out" mode;
     * `covered` is the set of pixels the canvas rasterises the stroke to.
     * Otherwise nothing happens.
     */
    method MouseMove(page: Point, covered: seq<Point>)
      requires Valid()
      modifies this, pixels
      ensures Valid()
      ensures !old(scratchActivated) ==>
                path == old(path) && composite == old(composite) && opacity == old(opacity) &&
                pixels[..] == old(pixels[..])
      ensures old(scratchActivated) ==>
                path == old(path) + [ToCanvas(page)] && composite == DestinationOut &&
                opacity == (if old(opacity) != "" then "" else "0.999") &&
                pixels[..] == Erased(old(pixels[..]), width, height, covered)
      ensures scratchActivated == old(scratchActivated) && hidden == old(hidden)
      ensures completions == old(completions) && handlersCleared == old(handlersCleared)
      ensures CurrentCoverage().Some? ==> old(CurrentCoverage()).value.cleared <= CurrentCoverage().value.cleared
    {
      if !scratchActivated {
        return;
      }
      path := path + [ToCanvas(page)];
      composite := DestinationOut;
      EraseStroke(pixels, width, height, covered);
      EraseNeverUnscratches(old(pixels[..]), width, height, area, covered);
      if opacity != "" {
        opacity := "";
      } else {
        opacity := "0.999";
      }
    }

    /** `strokeCompleteHandler`: the stroke ends; the path is closed but kept. */
    method StrokeComplete()
      requires Valid()
      modifies this
      ensures Valid()
      ensures !scratchActivated && path == old(path)
      ensures composite == old(composite) && opacity == old(opacity) && hidden == old(hidden)
      ensures completions == old(completions) && handlersCleared == old(handlersCleared)
      ensures pixels[..] == old(pixels[..])
    {
      scratchActivated := false;
    }

    /** `getScratchedPercentage`: samples the valid area and counts its scratched pixels. */
    method GetScratchedPercentage() returns (r: Option<Coverage>)
      requires Valid()
      ensures r == CurrentCoverage()
    {
      if area.width == 0 || area.height == 0 {
        return None;
      }
      var data := Sample(pixels[..], width, height, area);
      var c := ScratchedPercentage(data);
      return Some(c);
    }

    /** `showAll`: hides the overlay. */
    method ShowAll()
      modifies this
      ensures hidden
      ensures scratchActivated == old(scratchActivated) && path == old(path)
      ensures composite == old(composite) && opacity == old(opacity)
      ensures completions == old(completions) && handlersCleared == old(handlersCleared)
    {
      hidden := true;
    }

    /**
     * `checkIsOktoShowAll`: once the coverage reaches the threshold, hides
     * the overlay, calls `onComplete` if there is one, and nulls the
     * instance's mouseout and mouseup handler properties.
     */
    method CheckIsOkToShowAll(c: Coverage)
      requires Valid()
      modifies this
      ensures Valid()
      ensures Reached(c, threshold) ==>
                hidden && handlersCleared &&
                completions == old(completions) + (if notifies then 1 else 0)
      ensures !Reached(c, threshold) ==>
                hidden == old(hidden) && handlersCleared == old(handlersCleared) &&
                completions == old(completions)
      ensures scratchActivated == old(scratchActivated) && path == old(path)
      ensures composite == old(composite) && opacity == old(opacity)
    {
      if Reached(c, threshold) {
        ShowAll();
        if notifies {
          completions := completions + 1;
        }
        handlersCleared := true;
      }
    }

    /**
     * `canvasMouseupHandler`: ends the stroke and checks the coverage. The
     * listener was bound before the handler properties could be nulled,
     * so it keeps running after the card is revealed.
     */
    method MouseUp()
      requires Valid()
      modifies this
      ensures Valid()
      ensures !scratchActivated && path == old(path)
      ensures pixels[..] == old(pixels[..])
      ensures var reached := CurrentCoverage().Some? && Reached(CurrentCoverage().value, threshold);
              hidden == (old(hidden) || reached) &&
              completions == old(completions) + (if reached && notifies then 1 else 0) &&
              handlersCleared == (old(handlersCleared) || reached)
      ensures composite == old(composite) && opacity == old(opacity)
    {
      StrokeComplete();
      var c := GetScratchedPercentage();
      if c.Some? {
        CheckIsOkToShowAll(c.value);
      }
    }

    /** `canvasMouseoutHandler`: ends the stroke without checking the coverage. */
    method MouseOut()
      requires Valid()
      modifies this
      ensures Valid()
      ensures !scratchActivated && path == old(path)
      ensures composite == old(composite) && opacity == old(opacity) && hidden == old(hidden)
      ensures completions == old(completions) && handlersCleared == old(handlersCleared)
      ensures pixels[..] == old(pixels[..])
    {
      StrokeComplete();
    }
  }

  /**
   * `new ScratchCard(options)`: merges the caller's options over the
   * defaults and validates them; an invalid set throws the first failing
   * check's error and yields no card.
   */
  method Create(callerOptions: Value, canvasBox: Point, offsetParents: seq<Point>, background: seq<Byte>)
    returns (outcome: Outcome, card: ScratchCard?)
    requires Supported(MergedOptions(callerOptions))
    requires |background| == 4
    ensures outcome == Validate(MergedOptions(callerOptions))
    ensures outcome.Pass? <==> card != null
    ensures card != null ==>
              fresh(card) && fresh(card.pixels) && card.Valid() &&
              card.options == MergedOptions(callerOptions)
    ensures card != null ==>
              var options, p := card.options, Get(card.options, "percentage");
              SizeGiven(options) && AreaGiven(options) && !(p.Str? && p.s != "") && !IsObject(p) &&
              card.width == CanvasWidth(options) && card.height == CanvasHeight(options) &&
              card.area == AreaOf(options, card.width, card.height) &&
              card.threshold == ThresholdOf(p) &&
              card.notifies == Truthy(Get(options, "onComplete")) &&
              card.canvasOffset == Offset.Total([canvasBox] + offsetParents) &&
              card.pixels[..] == Filled(background, Times(card.height, card.width)) &&
              !card.scratchActivated && card.path == [] && card.composite == SourceOver &&
              card.opacity == "" && !card.hidden && card.completions == 0 && !card.handlersCleared
  {
    var options := MergedOptions(callerOptions);
    outcome := Validate(options);
    if outcome.Pass? {
      card := new ScratchCard(options, canvasBox, offsetParents, background);
    } else {
      card := null;
    }
  }

  // ---------------------------------------------------------------------
  // Properties of the reveal rule
  // ---------------------------------------------------------------------

  /** A caller who gives no `percentage` gets the threshold 0.6. */
  lemma DefaultCardThreshold(callerOptions: Value)
    requires "percentage" !in Props(callerOptions)
    ensures ThresholdOf(Get(MergedOptions(callerOptions), "percentage")) == Some(DefaultPercentage)
  {
    DefaultThreshold(callerOptions);
  }

  /**
   * An empty area never reaches any threshold. The card never measures
   * one (`getImageData` throws first), so this is the defined value's
   * behaviour, not the source's.
   */
  lemma {:induction false} EmptyAreaNeverReached(bitmap: seq<Byte>, width: nat, height: nat, area: Rect, threshold: Option<real>)
    requires area.width == 0 || area.height == 0
    ensures !Reached(CoverageOf(Sample(bitmap, width, height, area)), threshold)
  {
    TimesIsProduct(area.height, area.width);
  }

  /** Once reached, the threshold stays reached whatever is scratched next. */
  lemma StrokeKeepsReached(bitmap: seq<Byte>, width: nat, height: nat, area: Rect, stroke: seq<Point>, threshold: Option<real>)
    requires |bitmap| == 4 * Times(height, width)
    requires Reached(CoverageOf(Sample(bitmap, width, height, area)), threshold)
    ensures Reached(CoverageOf(Sample(Erased(bitmap, width, height, stroke), width, height, area)), threshold)
  {
    EraseNeverUnscratches(bitmap, width, height, area, stroke);
    ReachesMonotone(CoverageOf(Sample(bitmap, width, height, area)),
                    CoverageOf(Sample(Erased(bitmap, width, height, stroke), width, height, area)),
                    threshold.value);
  }

  /**
   * A stroke over the whole of a non-empty on-canvas area reaches every
   * threshold up to 1.
   */
  lemma WholeAreaScratched(bitmap: seq<Byte>, width: nat, height: nat, area: Rect, stroke: seq<Point>, threshold: real)
    requires |bitmap| == 4 * Times(height, width)
    requires AreaOnCanvas(area, width, height) && area.width > 0 && area.height > 0
    requires forall p :: InRect(p, area) ==> p in stroke
    requires threshold <= 1.0
    ensures Reached(CoverageOf(Sample(Erased(bitmap, width, height, stroke), width, height, area)), Some(threshold))
  {
    StrokeOverArea(bitmap, width, height, area, stroke);
    TimesGrows(0, area.height, area.width);
    var c := CoverageOf(Sample(Erased(bitmap, width, height, stroke), width, height, area));
    FractionFacts(c);
  }

  /**
   * A freshly painted card over an opaque background, with its area on the
   * canvas, reads as unscratched: it is revealed on release only when the
   * threshold is at most 0.
   */
  lemma FreshCardReached(background: seq<Byte>, width: nat, height: nat, area: Rect, threshold: Option<real>)
    requires |background| == 4 && background[3] != 0
    requires AreaOnCanvas(area, width, height)
    ensures var c := CoverageOf(Sample(Filled(background, Times(height, width)), width, height, area));
            Reached(c, threshold) <==> c.total > 0 && threshold.Some? && threshold.value <= 0.0
  {
    var bitmap := Filled(background, Times(height, width));
    forall k | 0 <= k < Times(height, width)
      ensures Alpha(bitmap, k) != 0
    {
      assert bitmap[4 * k..4 * k + 4] == background;
      assert bitmap[4 * k + 3] == background[3];
    }
    OpaqueUnscratched(bitmap, width, height, area);
    var c := CoverageOf(Sample(bitmap, width, height, area));
    if c.total > 0 {
      FractionFacts(c);
    }
  }

  /**
   * Pixels of the area beyond the canvas read as transparent black, so they
   * count as scratched from the start: an area lying wholly off the canvas
   * is fully scratched.
   */
  lemma OffCanvasAreaScratched(bitmap: seq<Byte>, width: nat, height: nat, area: Rect)
    requires forall p :: InRect(p, area) ==> !InBounds(p, width, height)
    ensures var c := CoverageOf(Sample(bitmap, width, height, area));
            c.cleared == c.total
  {
    CountUniform(bitmap, width, height, AreaPoints(area, area.height), true);
    SampleCount(bitmap, width, height, area);
  }
}
