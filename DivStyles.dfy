/** The style of a block container (a `div`): only its top margin, in
    points. */
module DivStyles {
  import opened Wrappers
  import opened Scan
  import SpanStyles

  datatype DivStyle = DivStyle(marginTop: Option<real>)

  const MarginKey := "margin-top:"

  /** `margin-top:(\d+\.?\d*)pt;?`: the decimal after the first `margin-top:`
      whose number is directly followed by `pt`; another unit does not match. */
  function MarginTop(s: string): (r: Option<real>)
    ensures r.None? <==> forall i: nat :: !MatchAt(s, MarginKey, DecimalThenPt, i)
    ensures forall i: nat :: FirstMatchAt(s, MarginKey, DecimalThenPt, i) ==>
      r == Some(DecimalValue(s[i + |MarginKey|..]))
  {
    match Search(s, MarginKey, DecimalThenPt)
    case None => None
    case Some(i) => Some(DecimalValue(s[i + |MarginKey|..]))
  }

  function Parse(s: string): DivStyle
  {
    DivStyle(MarginTop(s))
  }

  /** `DivStyle(node_or_style)`: the style string is found as for a span, so
      a tag without a `style` attribute, or a value that is neither a string
      nor a tag, is an error. */
  function FromSource(src: SpanStyles.StyleSource): (r: Result<DivStyle, SpanStyles.StyleError>)
    ensures r.Ok? <==> SpanStyles.GetStyleString(src).Ok?
    ensures r.Err? ==> r.error == SpanStyles.GetStyleString(src).error
    ensures r.Ok? ==> r.value == Parse(SpanStyles.GetStyleString(src).value)
  {
    match SpanStyles.GetStyleString(src)
    case Ok(s) => Ok(Parse(s))
    case Err(e) => Err(e)
  }

  /** `to_tuple`'s one-element key: an absent or zero margin becomes -1. */
  function ToTuple(d: DivStyle): (k: real)
    ensures d.marginTop.Some? && d.marginTop.value != 0.0 ==> k == d.marginTop.value
    ensures d.marginTop.None? || d.marginTop == Some(0.0) ==> k == -1.0
  {
    if d.marginTop.Some? && d.marginTop.value != 0.0 then d.marginTop.value else -1.0
  }

  /** A style string that starts with the margin key and a decimal in
      points reads that margin. */
  lemma MarginTopAtStart(t: string)
    requires FollowedBy(t, DecimalThenPt)
    ensures MarginTop(MarginKey + t) == Some(DecimalValue(t))
  {
    var s := MarginKey + t;
    assert s[0..][..|MarginKey|] == MarginKey && s[|MarginKey|..] == t;
    assert FirstMatchAt(s, MarginKey, DecimalThenPt, 0);
  }

  /** `margin-top:1.5pt;text-align:justify` has the margin 1.5. */
  lemma MarginTopExample()
    ensures MarginTop(MarginKey + "1.5pt;text-align:justify") == Some(1.5)
  {
    var t := "1.5pt;text-align:justify";
    TenthsDecimal(t);
    TenthsThenPt(t);
    MarginTopAtStart(t);
  }
}
