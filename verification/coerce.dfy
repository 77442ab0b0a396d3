/** Turning the text found in a source into the value a field holds:
    setField for one element, setSlice for a slice field. */
module Coercion {
  import opened GoStrings
  import opened GoStrconv
  import opened Schema

  /** setField: the value an element of kind `e` holds after being set from
      `text`. Parse errors are dropped, so malformed numbers store the value
      the parser returns with its error (0, or the bound on overflow) and an
      unrecognised boolean stores false. Kinds setField does not handle keep
      their value; `OtherVal` is the only value such a kind has here. */
  function SetField(lib: Library, e: ElemKind, text: string): (v: Scalar)
    ensures ScalarConforms(e, v)
    // text is stored verbatim
    ensures e == Text ==> v == TextVal(text)
    // booleans: true exactly for the true literals of ParseBool
    ensures e == Bool ==> (v.b <==> IsTrueLiteral(text))
    // numbers that are not numbers at all store zero
    ensures e.Int? && ParseInt(text, e.width).status == SyntaxError ==> v == IntVal(0)
    ensures e.Uint? && ParseUint(text, e.width).status == SyntaxError ==> v == UintVal(0)
    // out-of-range numbers store the bound of the width on the side of their sign
    ensures e.Uint? && ParseUint(text, e.width).status == RangeError ==> v == UintVal(MaxUint(e.width))
    ensures e.Int? && ParseInt(text, e.width).status == RangeError ==>
      |text| > 0 && v == IntVal(if text[0] == '-' then MinInt(e.width) else MaxInt(e.width))
    // numbers that parse store their value as read off the whole text, which
    // may carry a "+" sign or leading zeros
    ensures e.Int? && ParseIntSpec(text, e.width).status == Parsed ==>
      v == IntVal(ParseIntSpec(text, e.width).value)
    ensures e.Uint? && ParseUintSpec(text, e.width).status == Parsed ==>
      v == UintVal(ParseUintSpec(text, e.width).value)
    // floats are whatever the float parser yields
    ensures e.Float? ==> v == FloatVal(lib.parseFloat(text, e.fwidth))
  {
    match e
    case Text => TextVal(text)
    case Int(w) =>
      ParseIntMatchesSpec(text, w);
      IntVal(ParseInt(text, w).value)
    case Uint(w) =>
      ParseUintMatchesSpec(text, w);
      UintVal(ParseUint(text, w).value)
    case Bool => BoolVal(ParseBool(text).value)
    case Float(fw) => FloatVal(lib.parseFloat(text, fw))
    case Other => OtherVal
  }

  /** Every integer of the width survives being written in decimal and set. */
  lemma SetFieldFormatInt(lib: Library, w: Width, i: int)
    requires MinInt(w) <= i <= MaxInt(w)
    ensures SetField(lib, Int(w), FormatInt(i)) == IntVal(i)
  {
    ParseFormatInt(i, w);
  }

  /** Every unsigned integer of the width survives being written in decimal and set. */
  lemma SetFieldFormatUint(lib: Library, w: Width, n: nat)
    requires n <= MaxUint(w)
    ensures SetField(lib, Uint(w), FormatUint(n)) == UintVal(n)
  {
    ParseFormatUint(n, w);
  }

  /** A value that does not start like a number overwrites a numeric field
      with zero; the field's previous value is not kept. */
  lemma SetFieldMalformedIsZero(lib: Library, w: Width, text: string)
    requires |text| > 0 && !IsDigit(text[0]) && text[0] != '+' && text[0] != '-'
    ensures SetField(lib, Int(w), text) == IntVal(0)
    ensures SetField(lib, Uint(w), text) == UintVal(0)
  {
    NonNumericParsesToZero(text, w);
  }

  /** setSlice falls back to ":" when the tag gave an empty separator. */
  function SliceSeparator(sep: string): (s: string)
    ensures |s| > 0
    ensures sep == "" ==> s == ":"
    ensures sep != "" ==> s == sep
  {
    if sep == "" then ":" else sep
  }

  /** The elements the parts of a slice value become, one per part, in order. */
  function Elements(lib: Library, e: ElemKind, parts: seq<string>): (r: seq<Scalar>)
    ensures |r| == |parts|
    ensures forall j :: 0 <= j < |parts| ==> r[j] == SetField(lib, e, parts[j])
    decreases |parts|
  {
    if parts == [] then []
    else
      assert forall j :: 1 <= j < |parts| ==> parts[1..][j - 1] == parts[j];
      [SetField(lib, e, parts[0])] + Elements(lib, e, parts[1..])
  }

  /** The loop of setSlice: each part is set into a fresh zero element which
      is then appended. */
  function AppendParts(lib: Library, e: ElemKind, items: seq<Scalar>, parts: seq<string>): (r: seq<Scalar>)
    ensures r == items + Elements(lib, e, parts)
    decreases |parts|
  {
    if parts == [] then items
    else
      var x := SetField(lib, e, parts[0]);
      assert items + [x] + Elements(lib, e, parts[1..]) == items + ([x] + Elements(lib, e, parts[1..]));
      AppendParts(lib, e, items + [x], parts[1..])
  }

  /** setSlice: the existing elements are kept and one element per part of
      the split value is appended. */
  function SetSlice(lib: Library, e: ElemKind, items: seq<Scalar>, text: string, sep: string): (r: seq<Scalar>)
    ensures var parts := Split(text, SliceSeparator(sep));
      |r| == |items| + |parts| && r[..|items|] == items &&
      forall j :: 0 <= j < |parts| ==> r[|items| + j] == SetField(lib, e, parts[j])
  {
    AppendParts(lib, e, items, Split(text, SliceSeparator(sep)))
  }

  /** Every appended element conforms to the element kind. */
  lemma SetSliceConforms(lib: Library, e: ElemKind, items: seq<Scalar>, text: string, sep: string)
    requires forall j :: 0 <= j < |items| ==> ScalarConforms(e, items[j])
    ensures var r := SetSlice(lib, e, items, text, sep);
      forall j :: 0 <= j < |r| ==> ScalarConforms(e, r[j])
  {
    var r := SetSlice(lib, e, items, text, sep);
    forall j | 0 <= j < |r|
      ensures ScalarConforms(e, r[j])
    {
      if j >= |items| {
        assert r[j] == SetField(lib, e, Split(text, SliceSeparator(sep))[j - |items|]);
      } else {
        assert r[j] == r[..|items|][j];
      }
    }
  }

  /** Texts joined with a one-character separator none of them contains
      come back as the same texts, after whatever the slice held. */
  lemma SetSliceJoinText(lib: Library, items: seq<Scalar>, texts: seq<string>, c: char)
    requires |texts| >= 1
    requires forall k :: 0 <= k < |texts| ==> c !in texts[k]
    ensures SetSlice(lib, Text, items, Join(texts, [c]), [c]) ==
      items + seq(|texts|, k requires 0 <= k < |texts| => TextVal(texts[k]))
  {
    SplitJoinChar(texts, c);
    var parts := Split(Join(texts, [c]), [c]);
    assert SliceSeparator([c]) == [c];
    var r := SetSlice(lib, Text, items, Join(texts, [c]), [c]);
    var added := seq(|texts|, k requires 0 <= k < |texts| => TextVal(texts[k]));
    assert r[..|items|] == items;
    assert r[|items|..] == added by {
      forall j | 0 <= j < |texts|
        ensures r[|items| + j] == added[j]
      {
        assert r[|items| + j] == SetField(lib, Text, parts[j]);
      }
    }
    assert r == r[..|items|] + r[|items|..];
  }

  /** Integers written in decimal and joined with ":" load back as the same
      integers when the tag names no separator. */
  lemma SetSliceJoinInts(lib: Library, w: Width, xs: seq<int>)
    requires |xs| >= 1
    requires forall k :: 0 <= k < |xs| ==> MinInt(w) <= xs[k] <= MaxInt(w)
    ensures SetSlice(lib, Int(w), [], Join(seq(|xs|, k requires 0 <= k < |xs| => FormatInt(xs[k])), ":"), "") ==
      seq(|xs|, k requires 0 <= k < |xs| => IntVal(xs[k]))
  {
    var texts := seq(|xs|, k requires 0 <= k < |xs| => FormatInt(xs[k]));
    forall k | 0 <= k < |texts|
      ensures ':' !in texts[k]
    {
      FormatIntHasNoColon(xs[k]);
    }
    SplitJoinChar(texts, ':');
    var r := SetSlice(lib, Int(w), [], Join(texts, ":"), "");
    forall j | 0 <= j < |r|
      ensures r[j] == IntVal(xs[j])
    {
      SetFieldFormatInt(lib, w, xs[j]);
    }
  }

  lemma FormatIntHasNoColon(i: int)
    ensures ':' !in FormatInt(i)
  {
    if i >= 0 {
      FormatUintHasNoColon(i);
    } else {
      FormatUintHasNoColon(-i);
    }
  }

  lemma FormatUintHasNoColon(n: nat)
    ensures ':' !in FormatUint(n)
  {
    var s := FormatUint(n);
    forall k | 0 <= k < |s|
      ensures s[k] != ':'
    {
      assert IsDigit(s[k]);
    }
  }

  /** Setting a slice twice appends both batches, in order. */
  lemma SetSliceAccumulates(lib: Library, e: ElemKind, items: seq<Scalar>, t1: string, t2: string, sep: string)
    ensures SetSlice(lib, e, SetSlice(lib, e, items, t1, sep), t2, sep) ==
      items + Elements(lib, e, Split(t1, SliceSeparator(sep))) + Elements(lib, e, Split(t2, SliceSeparator(sep)))
  {
    var once := SetSlice(lib, e, items, t1, sep);
    var twice := SetSlice(lib, e, once, t2, sep);
    var e1 := Elements(lib, e, Split(t1, SliceSeparator(sep)));
    var e2 := Elements(lib, e, Split(t2, SliceSeparator(sep)));
    assert once == items + e1 by {
      assert once[..|items|] == items;
    }
    assert twice == once + e2 by {
      assert twice[..|once|] == once;
    }
  }

  /** The value a field holds after a matching key set it from `text`. A
      field of a kind setField ignores keeps its value. */
  function Store(lib: Library, k: Kind, prior: Value, text: string, sep: string): (v: Value)
    requires ValueConforms(k, prior)
    ensures ValueConforms(k, v)
    ensures k.Scalar? && k.elem != Other ==> v == One(SetField(lib, k.elem, text))
    ensures k == Scalar(Other) ==> v == prior
    ensures k.Slice? ==> v == Many(SetSlice(lib, k.elem, prior.items, text, sep))
  {
    match k
    case Scalar(e) => if e == Other then prior else One(SetField(lib, e, text))
    case Slice(e) =>
      SetSliceConforms(lib, e, prior.items, text, sep);
      Many(SetSlice(lib, e, prior.items, text, sep))
  }
}
