/**
 * Option handling of the scratch card: the deep merge of the caller's
 * options over the built-in defaults (`clone`, `extend`, `extendOptions`)
 * and the validation of the merged options (`isOptionsAvailable`).
 *
 * JavaScript values are modelled by the `Value` datatype. Values are
 * immutable here, so "a fresh copy" and "the same value" coincide; what the
 * model keeps from the source is which value ends up under which key.
 */
module Options {

  datatype Option<T> = None | Some(value: T)

  /** A JavaScript value as the option code sees it. */
  datatype Value =
    | Undefined
    | Null
    | Bool(b: bool)
    | Num(n: real)
    | Str(s: string)
    | Func(fid: nat)                  // a function object, known by its identity only
    | Node(nodeType: nat, nid: nat)   // a DOM node: its `nodeType` and its identity
    | Arr(items: seq<Value>)
    | Obj(fields: map<string, Value>)

  /** JavaScript truthiness (NaN is not among the modelled numbers). */
  predicate Truthy(v: Value) {
    match v
    case Undefined => false
    case Null => false
    case Bool(b) => b
    case Num(n) => n != 0.0
    case Str(s) => s != ""
    case _ => true
  }

  /** `v instanceof Object`: arrays, plain objects, functions and DOM nodes. */
  predicate IsObject(v: Value) {
    v.Arr? || v.Obj? || v.Func? || v.Node?
  }

  /** Property lookup on an options object; a missing key reads as undefined. */
  function Get(m: map<string, Value>, key: string): Value {
    if key in m then m[key] else Undefined
  }

  // ---------------------------------------------------------------------
  // clone (scratch-card.js:12-22)
  // ---------------------------------------------------------------------

  /**
   * `clone` passes non-objects, null and anything with a truthy `nodeType`
   * through, and rebuilds arrays and plain objects entry by entry. With
   * immutable values the rebuilt structure is the original one.
   */
  function Clone(v: Value): (r: Value)
    ensures r == v
  {
    match v
    case Arr(items) =>
      var copy := seq(|items|, i requires 0 <= i < |items| => Clone(items[i]));
      assert copy == items;
      Arr(copy)
    case Obj(fields) =>
      if "nodeType" in fields && Truthy(fields["nodeType"]) then v
      else
        var copy := map k | k in fields :: Clone(fields[k]);
        assert copy == fields;
        Obj(copy)
    case _ => v
  }

  // ---------------------------------------------------------------------
  // The keys `for (var j in target)` visits
  // ---------------------------------------------------------------------

  function Digit(d: nat): char
    requires d < 10
  {
    "0123456789"[d]
  }

  /** Decimal spelling of an array index, as a property name. */
  function IndexName(n: nat): (s: string)
    ensures |s| >= 1
  {
    if n < 10 then [Digit(n)] else IndexName(n / 10) + [Digit(n % 10)]
  }

  /** Distinct indices are spelled differently. */
  lemma {:induction false} IndexNameInjective(a: nat, b: nat)
    requires IndexName(a) == IndexName(b)
    ensures a == b
  {
    if a >= 10 && b >= 10 {
      var sa, sb := IndexName(a), IndexName(b);
      assert sa[..|sa| - 1] == IndexName(a / 10);
      assert sb[..|sb| - 1] == IndexName(b / 10);
      IndexNameInjective(a / 10, b / 10);
      assert Digit(a % 10) == Digit(b % 10);
    } else if a < 10 && b < 10 {
      assert Digit(a) == Digit(b);
    }
  }

  /** The index-named properties of an array-like value. */
  function IndexProps(items: seq<Value>): map<string, Value>
    decreases |items|
  {
    if items == [] then map[]
    else IndexProps(items[..|items| - 1])[IndexName(|items| - 1) := items[|items| - 1]]
  }

  /** An index at or past the end is not yet a property. */
  lemma {:induction false} IndexPropsLacks(items: seq<Value>, j: nat)
    requires j >= |items|
    ensures IndexName(j) !in IndexProps(items)
    decreases |items|
  {
    if items != [] {
      var n := |items| - 1;
      IndexPropsLacks(items[..n], j);
      if IndexName(j) == IndexName(n) {
        IndexNameInjective(j, n);
      }
    }
  }

  /** One property per item, under the item's index, holding the item. */
  lemma {:induction false} IndexPropsAt(items: seq<Value>)
    ensures |IndexProps(items)| == |items|
    ensures forall i :: 0 <= i < |items| ==>
              IndexName(i) in IndexProps(items) && IndexProps(items)[IndexName(i)] == items[i]
    decreases |items|
  {
    if items != [] {
      var n := |items| - 1;
      var earlier := IndexProps(items[..n]);
      IndexPropsAt(items[..n]);
      IndexPropsLacks(items[..n], n);
      assert IndexProps(items) == earlier[IndexName(n) := items[n]];
      forall i | 0 <= i < |items|
        ensures IndexName(i) in IndexProps(items) && IndexProps(items)[IndexName(i)] == items[i]
      {
        if i < n {
          if IndexName(i) == IndexName(n) {
            IndexNameInjective(i, n);
          }
          assert IndexName(i) in earlier && earlier[IndexName(i)] == items[..n][i];
        }
      }
    }
  }

  /**
   * The enumerable own properties a `for-in` loop visits: the fields of a
   * plain object, the indices of an array or of a string (whose values are
   * one-character strings), and nothing for the other values.
   */
  function Props(v: Value): (r: map<string, Value>)
    ensures v.Obj? ==> r == v.fields
    ensures !(v.Obj? || v.Arr? || v.Str?) ==> r == map[]
  {
    match v
    case Obj(fields) => fields
    case Arr(items) => IndexProps(items)
    case Str(s) => IndexProps(seq(|s|, i requires 0 <= i < |s| => Str([s[i]])))
    case _ => map[]
  }
  /** An array or a string enumerates its indices, each holding its item or character. */
  lemma PropsIndexed(v: Value)
    requires v.Arr? || v.Str?
    ensures v.Arr? ==>
              |Props(v)| == |v.items| &&
              forall i :: 0 <= i < |v.items| ==> IndexName(i) in Props(v) && Props(v)[IndexName(i)] == v.items[i]
    ensures v.Str? ==>
              |Props(v)| == |v.s| &&
              forall i :: 0 <= i < |v.s| ==> IndexName(i) in Props(v) && Props(v)[IndexName(i)] == Str([v.s[i]])
  {
    match v
    case Arr(items) => IndexPropsAt(items);
    case Str(s) => IndexPropsAt(seq(|s|, i requires 0 <= i < |s| => Str([s[i]])));
  }


  // ---------------------------------------------------------------------
  // extend (scratch-card.js:24-39)
  // ---------------------------------------------------------------------

  /**
   * A defaults tree that `extend` can merge into without writing onto a
   * shared object: no function or DOM node is reachable through plain
   * objects (arrays are never merged into, so their items are free).
   */
  predicate Plain(v: Value) {
    match v
    case Func(_) => false
    case Node(_, _) => false
    case Obj(fields) => forall k :: k in fields ==> Plain(fields[k])
    case _ => true
  }

  predicate PlainMap(m: map<string, Value>) {
    forall k :: k in m ==> Plain(m[k])
  }

  /**
   * `extend(target, defaults)`: start from a clone of the defaults; then for
   * every property of the target, merge recursively when the default there
   * is a non-array object and the target's value is truthy, copy the
   * target's value when the default is an array and the target's value is
   * truthy, and otherwise let the target's value replace the default.
   */
  function Extend(target: Value, defaults: map<string, Value>): (r: map<string, Value>)
    requires PlainMap(defaults)
    ensures r.Keys == defaults.Keys + Props(target).Keys
    ensures forall k :: k in defaults && k !in Props(target) ==> r[k] == defaults[k]
    decreases Obj(defaults)
  {
    var extended := Clone(Obj(defaults)).fields;
    var props := Props(target);
    map k | k in extended.Keys + props.Keys ::
      if k !in props then extended[k]
      else if k in extended && IsObject(extended[k]) && Truthy(props[k]) then
        if extended[k].Arr? then Clone(props[k])
        else
          assert Plain(extended[k]) && extended[k] < Obj(defaults);
          Obj(Extend(props[k], extended[k].fields))
      else props[k]
  }

  /**
   * The override rules: a plain-object default under a truthy target value
   * is merged recursively; in every other case the target's value wins,
   * an array default included (it is replaced wholesale by a copy).
   */
  lemma ExtendEntry(target: Value, defaults: map<string, Value>, k: string)
    requires PlainMap(defaults)
    requires k in Props(target)
    ensures k in defaults && defaults[k].Obj? && Truthy(Props(target)[k]) ==>
              Plain(defaults[k]) &&
              Extend(target, defaults)[k] == Obj(Extend(Props(target)[k], defaults[k].fields))
    ensures !(k in defaults && defaults[k].Obj? && Truthy(Props(target)[k])) ==>
              Extend(target, defaults)[k] == Props(target)[k]
  {
  }

  /** Without caller options the merged options are the defaults. */
  lemma ExtendNothing(defaults: map<string, Value>)
    requires PlainMap(defaults)
    ensures Extend(Undefined, defaults) == defaults
  {
  }

  /** Merging the defaults over themselves, at every depth, changes nothing. */
  lemma {:induction false} ExtendSelf(defaults: map<string, Value>)
    requires PlainMap(defaults)
    ensures Extend(Obj(defaults), defaults) == defaults
    decreases Obj(defaults)
  {
    var r := Extend(Obj(defaults), defaults);
    forall k | k in defaults
      ensures r[k] == defaults[k]
    {
      ExtendEntry(Obj(defaults), defaults, k);
      if defaults[k].Obj? && Truthy(defaults[k]) {
        assert defaults[k] < Obj(defaults);
        ExtendSelf(defaults[k].fields);
      }
    }
  }

  /**
   * With defaults that hold no plain object, the deep merge is a shallow
   * override: every property of the target replaces the default.
   */
  lemma ExtendFlat(target: Value, defaults: map<string, Value>)
    requires PlainMap(defaults)
    requires forall k :: k in defaults ==> !defaults[k].Obj?
    ensures Extend(target, defaults) == defaults + Props(target)
  {
    var r := Extend(target, defaults);
    forall k | k in Props(target)
      ensures r[k] == Props(target)[k]
    {
      ExtendEntry(target, defaults, k);
    }
  }

  // ---------------------------------------------------------------------
  // The built-in defaults (scratch-card.js:56-62)
  // ---------------------------------------------------------------------

  const DefaultPercentage: real := 0.6

  const Defaults: map<string, Value> := map[
    "percentage" := Num(DefaultPercentage),
    "text" := Str("刮开此涂层"),
    "background" := Str("#e0e0e0"),
    "color" := Str("#888"),
    "notSupportText" := Str("Sorry, your browser dose not support [Canvas], please use a higher version browser and try again.")
  ]

  /**
   * `extendOptions`: the caller's options merged over the defaults. The
   * defaults hold only primitives, so this is a shallow override.
   */
  function MergedOptions(callerOptions: Value): (m: map<string, Value>)
    ensures m == Defaults + Props(callerOptions)
  {
    assert PlainMap(Defaults);
    ExtendFlat(callerOptions, Defaults);
    Extend(callerOptions, Defaults)
  }

  /** A caller that gives no `percentage` gets the default threshold 0.6. */
  lemma DefaultThreshold(callerOptions: Value)
    requires "percentage" !in Props(callerOptions)
    ensures Get(MergedOptions(callerOptions), "percentage") == Num(0.6)
  {
  }

  // ---------------------------------------------------------------------
  // isOptionsAvailable (scratch-card.js:89-122)
  // ---------------------------------------------------------------------

  /** The five checks, in the order the source makes them. */
  datatype OptionError =
    | ContainerNotElement
    | ImgSrcNotString
    | SizeNotArray
    | ValidAreaNotArray
    | PercentageNotNumeric

  /** The option each check is about. */
  function ParamName(e: OptionError): string {
    match e
    case ContainerNotElement => "container"
    case ImgSrcNotString => "imgSrc"
    case SizeNotArray => "size"
    case ValidAreaNotArray => "validArea"
    case PercentageNotNumeric => "percentage"
  }

  /** What each check demands of its option. */
  function Requirement(e: OptionError): string {
    match e
    case ContainerNotElement => "must be given and must be a dom element."
    case ImgSrcNotString => "must be given and must be a string."
    case SizeNotArray => "must be an array like [{width}, {height}]."
    case ValidAreaNotArray => "must be an array like [{left}, {top}, {width}, {height}]."
    case PercentageNotNumeric => "must be a number or string like 0.8 or \"0.8\"."
  }

  /** The message each failing check throws: it opens by naming the option in brackets. */
  function Message(e: OptionError): (m: string)
    ensures |m| > 9 + |ParamName(e)|
    ensures m[..9 + |ParamName(e)|] == "Param [" + ParamName(e) + "] "
  {
    "Param [" + ParamName(e) + "] " + Requirement(e)
  }

  /** The eighth character of a message is the initial of its option. */
  lemma MessageInitial(e: OptionError)
    ensures Message(e)[7] == ParamName(e)[0]
  {
    assert Message(e)[..9 + |ParamName(e)|][7] == ParamName(e)[0];
  }

  /** Each check throws its own message. */
  lemma MessagesDistinct(e1: OptionError, e2: OptionError)
    requires e1 != e2
    ensures Message(e1) != Message(e2)
  {
    MessageInitial(e1);
    MessageInitial(e2);
    assert Initial(e1) != Initial(e2);
  }

  /** The initial of the option a check is about. */
  function Initial(e: OptionError): (c: char)
    ensures c == ParamName(e)[0]
  {
    match e
    case ContainerNotElement => 'c'
    case ImgSrcNotString => 'i'
    case SizeNotArray => 's'
    case ValidAreaNotArray => 'v'
    case PercentageNotNumeric => 'p'
  }

  /** Position of a check in the sequence of checks. */
  function Rank(e: OptionError): nat {
    match e
    case ContainerNotElement => 0
    case ImgSrcNotString => 1
    case SizeNotArray => 2
    case ValidAreaNotArray => 3
    case PercentageNotNumeric => 4
  }

  /** `v.nodeType`: a DOM node's own, a plain object's field, else undefined. */
  function NodeTypeOf(v: Value): Value {
    match v
    case Node(t, _) => Num(t as real)
    case Obj(fields) => Get(fields, "nodeType")
    case _ => Undefined
  }

  /** `x == 1` for the values a `nodeType` is compared as (numbers and booleans). */
  predicate LooselyOne(x: Value) {
    x == Num(1.0) || x == Bool(true)
  }

  /** Whether the merged options pass the check that raises `e`. */
  predicate Passes(e: OptionError, options: map<string, Value>) {
    match e
    case ContainerNotElement =>
      var c := Get(options, "container");
      Truthy(c) && Truthy(NodeTypeOf(c)) && LooselyOne(NodeTypeOf(c))
    case ImgSrcNotString =>
      var img := Get(options, "imgSrc");
      Truthy(img) && img.Str?
    case SizeNotArray =>
      var size := Get(options, "size");
      !Truthy(size) || size.Arr?
    case ValidAreaNotArray =>
      var area := Get(options, "validArea");
      !Truthy(area) || area.Arr?
    case PercentageNotNumeric =>
      var p := Get(options, "percentage");
      !Truthy(p) || p.Num? || p.Str?
  }

  datatype Outcome = Pass | Fail(error: OptionError)

  /**
   * `isOptionsAvailable`: runs the checks in order and stops at the first
   * one that fails, with that check's error.
   */
  function Validate(options: map<string, Value>): (r: Outcome)
    ensures r.Pass? <==> forall e :: Passes(e, options)
    ensures r.Fail? ==> !Passes(r.error, options)
    ensures r.Fail? ==> forall e :: Rank(e) < Rank(r.error) ==> Passes(e, options)
  {
    var container := Get(options, "container");
    var img := Get(options, "imgSrc");
    var size := Get(options, "size");
    var validArea := Get(options, "validArea");
    var percentage := Get(options, "percentage");
    if !(Truthy(container) && Truthy(NodeTypeOf(container)) && LooselyOne(NodeTypeOf(container))) then
      assert !Passes(ContainerNotElement, options);
      Fail(ContainerNotElement)
    else if !(Truthy(img) && img.Str?) then
      assert !Passes(ImgSrcNotString, options);
      Fail(ImgSrcNotString)
    else if Truthy(size) && !size.Arr? then
      assert !Passes(SizeNotArray, options);
      Fail(SizeNotArray)
    else if Truthy(validArea) && !validArea.Arr? then
      assert !Passes(ValidAreaNotArray, options);
      Fail(ValidAreaNotArray)
    else if Truthy(percentage) && !percentage.Num? && !percentage.Str? then
      assert !Passes(PercentageNotNumeric, options);
      Fail(PercentageNotNumeric)
    else
      Pass
  }

  /**
   * The construction pipeline up to validation (`extendOptions`, then
   * `isOptionsAvailable`): a caller who gives no container is refused with
   * the container message, whatever else they give.
   */
  lemma MissingContainerRefused(callerOptions: Value)
    requires "container" !in Props(callerOptions)
    ensures Validate(MergedOptions(callerOptions)) == Fail(ContainerNotElement)
  {
    assert "container" !in MergedOptions(callerOptions);
  }

  /** A caller with a proper container but no image source is refused next. */
  lemma MissingImageRefused(callerOptions: Value, element: nat)
    requires Props(callerOptions).Keys == {"container"}
    requires Props(callerOptions)["container"] == Node(1, element)
    ensures Validate(MergedOptions(callerOptions)) == Fail(ImgSrcNotString)
  {
    var options := MergedOptions(callerOptions);
    assert Get(options, "container") == Node(1, element);
    assert "imgSrc" !in options;
    assert Passes(ContainerNotElement, options) && !Passes(ImgSrcNotString, options);
  }
}
