/** The older integer-only font style record: size, weight and style, with
    no relative flag. */
module FontStyles {
  import opened Wrappers
  import opened Scan
  import SpanStyles

  datatype FontStyle = FontStyle(size: Option<nat>, weight: Option<nat>, style: Option<string>)

  /** `font-size:(\d+)`: the digits after the first `font-size:` that is
      followed by a digit.  A fraction is cut off, so the size is the span
      style's size rounded down. */
  function Size(s: string): (r: Option<nat>)
    ensures r.None? <==> forall i: nat :: !MatchAt(s, SpanStyles.SizeKey, DigitNext, i)
    ensures r.None? <==> SpanStyles.Size(s).None?
    ensures r.Some? ==> r.value == SpanStyles.Size(s).value.Floor
  {
    match Search(s, SpanStyles.SizeKey, DigitNext)
    case None => None
    case Some(i) =>
      var t := s[i + |SpanStyles.SizeKey|..];
      DecimalValueFloor(t);
      Some(DigitsValue(t[..DigitSpan(t)]))
  }

  /** `FontStyle(span_style)`.  Its weight and style patterns are the span
      style's (`font-weight:(\d+)`, `font-style:([a-zA-Z]+)`; the span
      style's optional trailing `;` changes no match), so those two fields
      are read by the same scanners. */
  function Parse(s: string): FontStyle
  {
    FontStyle(Size(s), SpanStyles.Weight(s), SpanStyles.Style(s))
  }

  /** `font-size:6.5pt` has the size 6: the fraction the span style keeps
      is cut off here. */
  lemma SizeExample()
    ensures Size("font-size:6.5pt") == Some(6)
    ensures SpanStyles.Size("font-size:6.5pt") == Some(6.5)
  {
    SpanStyles.SizeExample();
    assert (6.5).Floor == 6;
  }
}
