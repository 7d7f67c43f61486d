/** The style of a text run (a `span`), read from its `style` attribute:
    font size, font weight, font style and whether it is positioned
    relatively (a superscript or subscript marker). */
module SpanStyles {
  import opened Wrappers
  import opened Scan

  datatype SpanStyle = SpanStyle(
    size: Option<real>,
    weight: Option<nat>,
    style: Option<string>,
    relative: bool)

  /** The two `ValueError`s `_get_style_string` raises. */
  datatype StyleError = NoStyleAttribute | UnsupportedType(typeName: string)

  /** What a style may be read from: a style string, a tag with its `style`
      attribute (if it has one), or a value of some other type. */
  datatype StyleSource =
    | StyleString(s: string)
    | Element(style: Option<string>)
    | OtherValue(typeName: string)

  /** The style string of a source: a string is its own style string, a tag
      gives its `style` attribute, anything else is an error. */
  function GetStyleString(src: StyleSource): (r: Result<string, StyleError>)
    ensures src.StyleString? ==> r == Ok(src.s)
    ensures src.Element? ==> (r.Ok? <==> src.style.Some?)
    ensures src.Element? && src.style.Some? ==> r == Ok(src.style.value)
    ensures src.Element? && src.style.None? ==> r == Err(NoStyleAttribute)
    ensures src.OtherValue? ==> r == Err(UnsupportedType(src.typeName))
  {
    match src
    case StyleString(s) => Ok(s)
    case Element(style) =>
      if style.Some? then Ok(style.value) else Err(NoStyleAttribute)
    case OtherValue(name) => Err(UnsupportedType(name))
  }

  const SizeKey := "font-size:"
  const WeightKey := "font-weight:"
  const StyleKey := "font-style:"
  const RelativeKey := "position:relative"

  /** `font-size:(\d+\.?\d*);?`: the decimal after the first `font-size:`
      that is followed by a digit. */
  function Size(s: string): (r: Option<real>)
    ensures r.None? <==> forall i: nat :: !MatchAt(s, SizeKey, DigitNext, i)
    ensures forall i: nat :: FirstMatchAt(s, SizeKey, DigitNext, i) ==>
      r == Some(DecimalValue(s[i + |SizeKey|..]))
  {
    match Search(s, SizeKey, DigitNext)
    case None => None
    case Some(i) => Some(DecimalValue(s[i + |SizeKey|..]))
  }

  /** `font-weight:(\d+);?`: the integer after the first `font-weight:` that
      is followed by a digit. */
  function Weight(s: string): (r: Option<nat>)
    ensures r.None? <==> forall i: nat :: !MatchAt(s, WeightKey, DigitNext, i)
    ensures forall i: nat :: FirstMatchAt(s, WeightKey, DigitNext, i) ==>
      var t := s[i + |WeightKey|..];
      r == Some(DigitsValue(t[..DigitSpan(t)]))
  {
    match Search(s, WeightKey, DigitNext)
    case None => None
    case Some(i) =>
      var t := s[i + |WeightKey|..];
      Some(DigitsValue(t[..DigitSpan(t)]))
  }

  /** `font-style:([a-zA-Z]+);?`: the run of letters after the first
      `font-style:` that is followed by a letter. */
  function Style(s: string): (r: Option<string>)
    ensures r.None? <==> forall i: nat :: !MatchAt(s, StyleKey, LetterNext, i)
    ensures forall i: nat :: FirstMatchAt(s, StyleKey, LetterNext, i) ==>
      var t := s[i + |StyleKey|..];
      r == Some(t[..LetterSpan(t)])
    ensures r.Some? ==> r.value != [] && AllLetters(r.value)
  {
    match Search(s, StyleKey, LetterNext)
    case None => None
    case Some(i) =>
      var t := s[i + |StyleKey|..];
      Some(t[..LetterSpan(t)])
  }

  /** `position:relative;?`: whether the text occurs anywhere. */
  function Relative(s: string): (r: bool)
    ensures r <==> exists i: nat :: KeyAt(s, RelativeKey, i)
  {
    AnythingMatchesKeyAt(s, RelativeKey);
    Search(s, RelativeKey, Anything).Some?
  }

  /** `SpanStyle(style_string)`: four independent searches over the whole
      string; no string makes it fail. */
  function Parse(s: string): SpanStyle
  {
    SpanStyle(Size(s), Weight(s), Style(s), Relative(s))
  }

  /** `SpanStyle(node_or_style)`: fails exactly when the style string cannot
      be had. */
  function FromSource(src: StyleSource): (r: Result<SpanStyle, StyleError>)
    ensures r.Ok? <==> GetStyleString(src).Ok?
    ensures r.Err? ==> r.error == GetStyleString(src).error
    ensures src.StyleString? ==> r == Ok(Parse(src.s))
    ensures src.Element? && src.style.Some? ==> r == Ok(Parse(src.style.value))
  {
    match GetStyleString(src)
    case Ok(s) => Ok(Parse(s))
    case Err(e) => Err(e)
  }

  /** `to_tuple`'s comparison key: absent or zero size and weight become -1,
      and only the style `italic` gives 1. */
  datatype Key = Key(size: real, weight: int, italic: int)

  function ToTuple(st: SpanStyle): (k: Key)
    ensures k.italic == 1 <==> st.style == Some("italic")
    ensures k.italic == 1 || k.italic == -1
    ensures st.size.Some? && st.size.value != 0.0 ==> k.size == st.size.value
    ensures st.size.None? || st.size == Some(0.0) ==> k.size == -1.0
    ensures st.weight.Some? && st.weight.value != 0 ==> k.weight == st.weight.value
    ensures st.weight.None? || st.weight == Some(0) ==> k.weight == -1
  {
    Key(
      if st.size.Some? && st.size.value != 0.0 then st.size.value else -1.0,
      if st.weight.Some? && st.weight.value != 0 then st.weight.value else -1,
      if st.style == Some("italic") then 1 else -1)
  }

  /** Python's ordering of the tuples: lexicographic. */
  predicate KeyLess(a: Key, b: Key)
  {
    || a.size < b.size
    || (a.size == b.size && a.weight < b.weight)
    || (a.size == b.size && a.weight == b.weight && a.italic < b.italic)
  }

  // ---------------------------------------------------------------------
  // Values the test suite reads

  /** A style string that starts with the size key reads the size there. */
  lemma SizeAtStart(t: string)
    requires t != [] && IsDigit(t[0])
    ensures Size(SizeKey + t) == Some(DecimalValue(t))
  {
    var s := SizeKey + t;
    assert s[0..][..|SizeKey|] == SizeKey && s[|SizeKey|..] == t;
    assert FirstMatchAt(s, SizeKey, DigitNext, 0);
  }

  /** A style string that starts with the weight key reads the weight there. */
  lemma WeightAtStart(t: string)
    requires t != [] && IsDigit(t[0])
    ensures Weight(WeightKey + t) == Some(DigitsValue(t[..DigitSpan(t)]))
  {
    var s := WeightKey + t;
    assert s[0..][..|WeightKey|] == WeightKey && s[|WeightKey|..] == t;
    assert FirstMatchAt(s, WeightKey, DigitNext, 0);
  }

  /** `font-size:6.5pt` is the size 6.5, with its fraction. */
  lemma SizeExample()
    ensures Size("font-size:6.5pt") == Some(6.5)
  {
    assert "font-size:6.5pt" == SizeKey + "6.5pt";
    SizeAtStart("6.5pt");
    DecimalValueExample();
  }

  /** `font-size:9pt` is the size 9: a whole number keeps its value. */
  lemma WholeSizeExample()
    ensures Size("font-size:9pt") == Some(9.0)
  {
    assert "font-size:9pt" == SizeKey + "9pt";
    SizeAtStart("9pt");
    OneDigitDecimal("9pt");
  }

  /** `font-weight:400` is the weight 400. */
  lemma WeightExample()
    ensures Weight("font-weight:400") == Some(400)
  {
    assert "font-weight:400" == WeightKey + "400";
    WeightAtStart("400");
    DigitsValueExample();
  }
}
