/** The document nodes the parser reads.  Parsing HTML into this tree is done
    elsewhere; the parser only reads a node's name, its `style` attribute, its
    text and its children. */
module Dom {
  import opened Wrappers

  /** A text node (which has no name and no children) or a tag with its
      `style` attribute, if any, and its children in document order. */
  datatype Node =
    | Text(content: string)
    | Tag(name: string, style: Option<string>, children: seq<Node>)

  /** The parsed document itself: it has children but is never yielded. */
  datatype Soup = Soup(children: seq<Node>)

  /** The name the HTML parser gives the document object. */
  const DocumentName := "[document]"

  /** `Tag.text`: the text of every descendant text node, in document order. */
  function TextOf(n: Node): string
  {
    match n
    case Text(c) => c
    case Tag(_, _, ch) => TextOfAll(ch)
  }

  function TextOfAll(ns: seq<Node>): string
  {
    if ns == [] then "" else TextOf(ns[0]) + TextOfAll(ns[1..])
  }

  /** The characters Python's `str.isspace` accepts. */
  const Whitespace: set<char> := {
    ' ', '\t', '\n', '\r', '\U{000B}', '\U{000C}',
    '\U{001C}', '\U{001D}', '\U{001E}', '\U{001F}', '\U{0085}', '\U{00A0}', '\U{1680}',
    '\U{2000}', '\U{2001}', '\U{2002}', '\U{2003}', '\U{2004}', '\U{2005}',
    '\U{2006}', '\U{2007}', '\U{2008}', '\U{2009}', '\U{200A}',
    '\U{2028}', '\U{2029}', '\U{202F}', '\U{205F}', '\U{3000}'}

  predicate IsSpace(c: char)
  {
    c in Whitespace
  }

  predicate AllSpace(s: string) { forall i :: 0 <= i < |s| ==> IsSpace(s[i]) }

  /** Number of whitespace characters at the start of `s`. */
  function LeadingSpace(s: string): (n: nat)
    ensures n <= |s| && AllSpace(s[..n])
    ensures n == |s| || !IsSpace(s[n])
  {
    if s != [] && IsSpace(s[0]) then
      var m := LeadingSpace(s[1..]);
      assert s[..m + 1] == [s[0]] + s[1..][..m];
      m + 1
    else 0
  }

  /** Number of whitespace characters at the end of `s`. */
  function TrailingSpace(s: string): (n: nat)
    ensures n <= |s| && AllSpace(s[|s| - n..])
    ensures n == |s| || !IsSpace(s[|s| - n - 1])
  {
    if s != [] && IsSpace(s[|s| - 1]) then
      var init := s[..|s| - 1];
      var m := TrailingSpace(init);
      assert s[|s| - (m + 1)..] == init[|init| - m..] + [s[|s| - 1]];
      m + 1
    else 0
  }

  /** `str.strip()`: `s` without its leading and trailing whitespace: the
      result starts and ends with a non-space, and what is cut off on either
      side is whitespace. */
  function Strip(s: string): (r: string)
    ensures r == [] || (!IsSpace(r[0]) && !IsSpace(r[|r| - 1]))
    ensures var a := LeadingSpace(s);
      && a + |r| <= |s| && s[a..a + |r|] == r
      && AllSpace(s[..a]) && AllSpace(s[a + |r|..])
  {
    var a := LeadingSpace(s);
    var t := |s| - TrailingSpace(s);
    if a <= t then
      StripEnds(s);
      s[a..t]
    else
      SpaceSuffix(s, t, a);
      []
  }

  /** A suffix of an all-whitespace tail is all whitespace. */
  lemma SpaceSuffix(s: string, i: nat, j: nat)
    requires i <= j <= |s| && AllSpace(s[i..])
    ensures AllSpace(s[j..])
  {
    forall k | 0 <= k < |s| - j ensures IsSpace(s[j..][k]) {
      assert s[j..][k] == s[i..][k + j - i];
    }
  }

  /** Between the two cuts, the first and last characters are not spaces. */
  lemma StripEnds(s: string)
    requires LeadingSpace(s) <= |s| - TrailingSpace(s)
    ensures var a, e := LeadingSpace(s), |s| - TrailingSpace(s);
      a < e ==> !IsSpace(s[a]) && !IsSpace(s[e - 1])
  {
  }
}
