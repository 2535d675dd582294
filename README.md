# scratch-card, modelled in Dafny

`scratch-card.js` is a browser widget. It lays a gray canvas over an image, and
the user "scratches" the canvas away by dragging the mouse or a finger across
it. When the pointer is released, the widget measures how much of a valid area
of the canvas has become transparent. Once that share reaches the
`percentage` option (0.6 by default), it hides the canvas and calls the
caller's `onComplete`.

This project models the widget's logic:

- the option handling: `clone`, the deep merge `extend`, the built-in
  defaults and the five ordered checks of `isOptionsAvailable`
  (`options.dfy`);
- the page offset of the canvas, `getOffset` (`offset.dfy`);
- the measure of `getScratchedPercentage`: one alpha byte in four, the
  pixels with alpha 0 counted (`coverage.dfy`);
- the canvas as an RGBA byte buffer:
  - what a "destination-out" stroke does to it;
  - what `getImageData` reads back from it (`bitmap.dfy`);
- the `ScratchCard` object and its handlers: mousedown, mousemove, mouseup,
  mouseout, stroke completion and the reveal check (`card.dfy`).

`geometry.dfy` holds the points and rectangles the other modules share.

The source's float quotient `scratched / (len / 4)` is kept as the pair
`Coverage(cleared, total)`. For an empty valid area, `getImageData` throws
(scratch-card.js:201) before the quotient is formed, so the mouseup handler
stops there and the canvas stays as it was. The model gives the empty sample
the defined value `Coverage(0, 0)`, which reaches no threshold and which the
card never computes.

The listeners are bound to closures over the original handler functions.
Setting `canvasMouseupHandler` and `canvasMouseoutHandler` to null after the
reveal (scratch-card.js:338-339) does not unregister them. So in the model, as
in the source, every later mouseup whose coverage still reaches the threshold
calls `onComplete` again: `MouseUp`'s contract counts those calls in
`completions`.

## Model

| member | source | states |
|---|---|---|
| Options.Props | scratch-card.js:17-28 | a `for-in` loop visits a plain object's own fields; numbers, booleans, null and undefined have none |
| Options.PropsIndexed | scratch-card.js:17-28 | an array or a string enumerates exactly one property per index, named by the index's decimal spelling and holding that item or character |
| Options.IndexNameInjective | scratch-card.js:17 | distinct indices are distinct property names |
| Options.Clone | scratch-card.js:12-22 | cloning a value gives a value equal to it: non-objects, null and DOM nodes pass through; arrays and plain objects are rebuilt entry by entry |
| Options.Extend | scratch-card.js:24-39 | the merged object has exactly the defaults' keys and the target's enumerable keys; a key only in the defaults keeps its default value |
| Options.ExtendEntry | scratch-card.js:27-36 | override rules: a plain-object default under a truthy target value is merged recursively; otherwise the target's value wins, array defaults included |
| Options.ExtendNothing | scratch-card.js:24-39 | extending with no target (undefined) yields the defaults |
| Options.ExtendSelf | scratch-card.js:24-39 | merging a defaults tree over itself changes nothing, at every depth |
| Options.ExtendFlat | scratch-card.js:24-39 | over defaults that hold no plain object, the deep merge is the shallow override `defaults + props(target)` |
| Options.MergedOptions | scratch-card.js:70-72 | the options used are the built-in defaults overridden by every property the caller gives |
| Options.DefaultThreshold | scratch-card.js:56-57 | a caller who gives no `percentage` gets 0.6 |
| Options.Validate | scratch-card.js:89-122 | passes exactly when all five checks pass; a failure names a check that fails, and every earlier check passes |
| Options.Message | scratch-card.js:97-117 | each check's error message opens with the option it is about, in brackets |
| Options.MessagesDistinct | scratch-card.js:97-117 | different failing checks throw different messages |
| Options.MissingContainerRefused | scratch-card.js:96-99 | merged options without a container are refused with the container error, whatever else is given |
| Options.MissingImageRefused | scratch-card.js:101-104 | with an element container and nothing else, the image-source check is the one that fails |
| Offset.TotalConcat | scratch-card.js:41-52 | offsets summed along a chain split at any point add up: the sum over the whole chain is the sum of the two parts |
| Offset.PageOffsetThroughAncestor | scratch-card.js:41-52 | an element's page offset is its offset relative to any ancestor on its chain plus that ancestor's page offset |
| Offset.GetOffset | scratch-card.js:41-52 | the loop returns the sum of the element's offset and those of all its offset ancestors |
| Coverage.ScratchedPercentage | scratch-card.js:196-209 | the stride-4 loop counts exactly the pixels whose alpha byte is 0, out of a quarter of the bytes; the quotient lies in [0, 1] |
| Coverage.FractionFacts | scratch-card.js:207 | the quotient is 0 exactly when nothing is scratched, and 1 exactly when everything is |
| Coverage.NoneCleared | scratch-card.js:203-205 | the count is 0 if and only if no alpha byte is 0 |
| Coverage.AllCleared | scratch-card.js:203-205 | the count is the number of pixels if and only if every alpha byte is 0 |
| Coverage.ClearedMonotone | scratch-card.js:203-205 | a buffer that has every scratched pixel of another, and maybe more, counts at least as many |
| Coverage.ClearedConcat | scratch-card.js:203-205 | counts add up over consecutive buffers of whole pixels |
| Coverage.FractionBounds | scratch-card.js:196-209 | for a non-empty sample the result is in [0, 1]: 0 iff no alpha is 0, 1 iff all are |
| Coverage.ReachesMonotone | scratch-card.js:335 | once `curPercentage >= percentage` holds for a sample, more scratched pixels keep it true |
| Bitmap.EraseStroke | scratch-card.js:302-303 | a destination-out stroke leaves the buffer equal to the erased one: the four bytes of every covered in-bounds pixel are 0, the rest unchanged |
| Bitmap.ErasedPixel | scratch-card.js:302-303 | a covered pixel reads as scratched afterwards; a scratched pixel stays scratched; an uncovered pixel keeps its bytes |
| Bitmap.BytesCount | scratch-card.js:201-205 | counting alpha bytes of the sampled bytes counts the scratched pixels of the sampled points |
| Bitmap.SampleCount | scratch-card.js:199-207 | the coverage of `getImageData(validArea)` is the area's scratched pixels over its width times height |
| Bitmap.EraseNeverUnscratches | scratch-card.js:301-303 | a stroke never lowers the scratched count of any area |
| Bitmap.StrokeOutsideArea | scratch-card.js:301-303 | a stroke outside the valid area leaves the area's sample unchanged |
| Bitmap.StrokeOverArea | scratch-card.js:301-303 | a stroke covering all of an on-canvas area scratches the whole sample |
| Bitmap.OpaqueUnscratched | scratch-card.js:232-234 | an opaque canvas has nothing scratched in an on-canvas area |
| Card.CanvasWidth | scratch-card.js:188-193 | the canvas width is the first entry of `size` |
| Card.CanvasHeight | scratch-card.js:188-193 | the canvas height is the second entry of `size` |
| Card.AreaOf | scratch-card.js:199 | the sampled rectangle is `validArea` when given, the whole canvas otherwise |
| Card.ThresholdOf | scratch-card.js:335 | `percentage` as the comparison reads it: undefined compares false with everything; null, false and "" compare as 0; a number as itself |
| Card.Filled | scratch-card.js:232-234 | the painted overlay has every pixel equal to the background colour |
| Card.Paint | scratch-card.js:232-234 | filling the canvas produces exactly the painted overlay |
| Card.Reached | scratch-card.js:335 | `curPercentage >= percentage`: never against an undefined percentage or for the empty sample; always for a non-empty sample against a percentage of at most 0; never against one above 1 |
| Card.SupportedOptions | scratch-card.js:89-122 | options that passed validation hold `size` and `validArea` as the card reads them, and a percentage that is a number whenever it is truthy, never a non-empty string or an object |
| Card.Create | scratch-card.js:5-10 | building a card merges the options, then validates them: it yields a card exactly when validation passes, otherwise the failing check's error; the new card and its fresh pixel buffer hold the merged options' size, area, threshold and callback flag, the canvas offset and the painted overlay |
| Card.ScratchCard.constructor | scratch-card.js:216-234 | a new card: size from `size`, area, threshold, the offset from `getOffset`, the overlay painted, no stroke in progress, not hidden, no callback made |
| Card.ScratchCard.CurrentCoverage | scratch-card.js:196-209 | the measured coverage: none when the area is empty (where `getImageData` throws), otherwise the area's pixel count, with at most that many scratched |
| Card.ScratchCard.ToCanvas | scratch-card.js:290 | a page coordinate minus the canvas offset, so adding the offset back gives the page coordinate |
| Card.ScratchCard.MouseDown | scratch-card.js:283-291 | activates scratching and starts a new path at the pointer, in canvas coordinates; nothing else changes |
| Card.ScratchCard.MouseMove | scratch-card.js:293-310 | when inactive, changes nothing; when active, extends the path, strokes it in destination-out mode, and toggles the opacity between '' and '0.999'; coverage never decreases |
| Card.ScratchCard.StrokeComplete | scratch-card.js:326-329 | deactivates scratching; nothing else changes |
| Card.ScratchCard.GetScratchedPercentage | scratch-card.js:196-209 | returns the measured coverage of the valid area |
| Card.ScratchCard.ShowAll | scratch-card.js:343-345 | hides the canvas |
| Card.ScratchCard.CheckIsOkToShowAll | scratch-card.js:331-341 | when the coverage reaches the threshold: hidden, onComplete called once more if present, handler properties nulled; otherwise nothing changes |
| Card.ScratchCard.MouseUp | scratch-card.js:312-315 | ends the stroke; afterwards hidden iff it was hidden or the coverage reaches the threshold; the canvas is never un-hidden, and onComplete is called on each release that reaches it |
| Card.ScratchCard.MouseOut | scratch-card.js:317-320 | ends the stroke without measuring; the canvas stays as it was |
| Card.DefaultCardThreshold | scratch-card.js:57 | without a caller `percentage`, the card reveals at 0.6 |
| Card.EmptyAreaNeverReached | scratch-card.js:199-201 | the defined empty-sample value never reaches any threshold; the card never computes it, because `getImageData` throws on an empty area |
| Card.StrokeKeepsReached | scratch-card.js:301-303 | once the threshold is reached, any further stroke keeps it reached |
| Card.WholeAreaScratched | scratch-card.js:335 | scratching all of a non-empty on-canvas area reaches every threshold up to 1 |
| Card.FreshCardReached | scratch-card.js:232-234 | a fresh card over an opaque background reaches the threshold on release only if the threshold is at most 0 |
| Card.OffCanvasAreaScratched | scratch-card.js:199-201 | area pixels beyond the canvas read as transparent, so an area wholly off the canvas counts as fully scratched |

## Left out

- Image loading and layout (`setImage`, `setContainer`, `setCanvas`, `initialize`): the card is set up at once, as if the image had loaded. Image loading, CSS and DOM insertion are I/O.
- Card.ScratchCard.constructor: requires `size` to be given. When it is absent, `getCurSize` reads `options.origSize`, which nothing ever sets, so the source fails with a TypeError inside the image's load handler and never sets up the canvas. That failure is not modelled, and the model supplies no fallback size.
- Card.ScratchCard.constructor: requires whole, non-negative numbers for the `size` entries and for `validArea`'s width and height, and whole numbers for its left and top. The canvas's and `getImageData`'s integer conversions, and the rectangle flip for negative widths, are not modelled.
- Card.ThresholdOf: a non-empty string `percentage` is not modelled (the comparison would convert it to a number); neither is NaN.
- Card.ScratchCard.constructor: requires `onComplete` to be a function when truthy. Calling any other truthy value throws.
- Rendering: the text painted over the background and the parsing of CSS colours are left out. The background colour is given as its four RGBA bytes.
- Card.ScratchCard.MouseMove: the pixels a round-capped, 30-pixel-wide stroke covers are given by the caller. Rasterising the path is the canvas's geometry. Anti-aliasing, which leaves edge pixels partly transparent, is not modelled: covered pixels become fully transparent, the rest stay unchanged.
- Card.ScratchCard.StrokeComplete: `closePath` is not modelled. The closed path is never stroked again, because a stroke only follows a mousedown, which begins a new path.
- Event plumbing: `bind`, `addEvent`, `bindEvents`, `events`, `isPC`, `getCoordinate` (touch events give their first touch's page coordinate), `containerMousemoveHandler` (only prevents the default action) and `destroy`. Handlers are methods called with the pointer's page coordinate.
- `setCanvasToErrorMode` and the error thrown when no 2D context is available are left out: they are browser support, not logic.
- Card.ScratchCard.CheckIsOkToShowAll: there is no "called at most once" guarantee for `onComplete`, because the source gives none (see above).
- Options.Extend: requires that no function or DOM node be reachable through plain objects in the defaults. For such defaults the source would write the target's properties onto the shared function or node. The only defaults ever passed hold strings and a number.
- Options.Extend: tests whether a key is an own key of the merged object. At scratch-card.js:28 the source's `extended[j]` also finds members inherited from `Object.prototype`, such as `constructor` or `toString`. For a caller key with such a name and a truthy value, the source merges the caller's value into the inherited function, writing its properties onto that shared function and storing the function, instead of copying the caller's value. This is not modelled.
- Options.Props: enumerable properties inherited through prototypes, and properties of functions and DOM nodes, are not enumerated. A string `nodeType` compared loosely with 1 is not modelled; only numbers and booleans are.
- Numbers are reals, not IEEE doubles. Page coordinates and offsets are integers. Strings are sequences of characters, not of UTF-16 code units.
