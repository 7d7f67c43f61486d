/** The parser's pure parts: the two "is a child of" predicates between
    styles, and the depth-first walk over the document. */
module Parser {
  import opened Wrappers
  import opened Dom
  import opened SpanStyles
  import DivStyles
  import FontStyles

  // ---------------------------------------------------------------------
  // Span predicate

  /** Both sides carry the field and the values differ, so the stage of the
      comparison that looks at this field decides. */
  predicate Differ<T(==)>(a: Option<T>, b: Option<T>)
  {
    a.Some? && b.Some? && a.value != b.value
  }

  predicate IsItalic(style: Option<string>)
  {
    style == Some("italic")
  }

  /** The comparison of two styles as a priority order: font size first, then
      weight, then italics; a stage is skipped when either side lacks that
      field.  Smaller size or weight, or italic under non-italic, is a child. */
  predicate LexicographicChild(node: SpanStyle, other: SpanStyle)
  {
    if Differ(node.size, other.size) then node.size.value < other.size.value
    else if Differ(node.weight, other.weight) then node.weight.value < other.weight.value
    else IsItalic(other.style) && !IsItalic(node.style)
  }

  /** `_is_span_child`: whether the run styled `node` is a child of the run
      styled `other`; `None` is a run without a `style` attribute. */
  function IsSpanChild(node: Option<SpanStyle>, other: Option<SpanStyle>): (r: bool)
    ensures other.None? ==> !r
    ensures other.Some? && node.None? ==> r
    ensures node.Some? && other.Some? && (node.value.relative || other.value.relative) ==> !r
    ensures node.Some? && other.Some? && !node.value.relative && !other.value.relative ==>
      (r <==> LexicographicChild(node.value, other.value))
  {
    if other.None? then false
    else if node.None? then true
    else
      var n, o := node.value, other.value;
      if n.relative || o.relative then false
      else if o.size.Some? && n.size.Some? && n.size.value < o.size.value then true
      else if o.size.Some? && n.size.Some? && n.size.value > o.size.value then false
      else if o.weight.Some? && n.weight.Some? && n.weight.value < o.weight.value then true
      else if o.weight.Some? && n.weight.Some? && n.weight.value > o.weight.value then false
      else if o.style.Some? then
        if n.style.Some? then o.style.value == "italic" && n.style.value != "italic"
        else o.style.value == "italic"
      else false
  }

  lemma SpanChildAsymmetric(a: Option<SpanStyle>, b: Option<SpanStyle>)
    ensures !(IsSpanChild(a, b) && IsSpanChild(b, a))
  {
  }

  lemma SpanChildIrreflexive(a: Option<SpanStyle>)
    ensures !IsSpanChild(a, a)
  {
  }

  /** With every field present and non-zero, the predicate is the tuple
      comparison of `to_tuple`. */
  lemma SpanChildIsKeyOrder(n: SpanStyle, o: SpanStyle)
    requires !n.relative && !o.relative
    requires n.size.Some? && n.size.value != 0.0 && o.size.Some? && o.size.value != 0.0
    requires n.weight.Some? && n.weight.value != 0 && o.weight.Some? && o.weight.value != 0
    ensures IsSpanChild(Some(n), Some(o)) <==> KeyLess(ToTuple(n), ToTuple(o))
  {
  }

  /** Without a size on one side the two disagree: the predicate skips the
      size stage, the tuple compares -1 with the other size. */
  lemma SpanChildIsNotKeyOrderWithoutSize()
    ensures var n := SpanStyle(None, Some(700), None, false);
            var o := SpanStyle(Some(10.0), Some(400), None, false);
            !IsSpanChild(Some(n), Some(o)) && KeyLess(ToTuple(n), ToTuple(o))
  {
  }

  // ---------------------------------------------------------------------
  // Container predicate

  /** `_is_div_child`: a container is a child of another when both margins
      are present and its own is strictly smaller. */
  function IsDivChild(node: Option<DivStyles.DivStyle>, other: Option<DivStyles.DivStyle>): (r: bool)
    ensures other.None? ==> !r
    ensures other.Some? && node.None? ==> r
    ensures node.Some? && other.Some? ==>
      (r <==> node.value.marginTop.Some? && other.value.marginTop.Some?
              && node.value.marginTop.value < other.value.marginTop.value)
  {
    if other.None? then false
    else if node.None? then true
    else
      var n, o := node.value, other.value;
      if o.marginTop.Some? && n.marginTop.Some? && n.marginTop.value < o.marginTop.value then true
      else false
  }

  lemma DivChildAsymmetric(a: Option<DivStyles.DivStyle>, b: Option<DivStyles.DivStyle>)
    ensures !(IsDivChild(a, b) && IsDivChild(b, a))
  {
  }

  lemma DivChildIrreflexive(a: Option<DivStyles.DivStyle>)
    ensures !IsDivChild(a, a)
  {
  }

  /** With both margins present and non-zero, the predicate is the order of
      `to_tuple`'s keys. */
  lemma DivChildIsKeyOrder(n: DivStyles.DivStyle, o: DivStyles.DivStyle)
    requires n.marginTop.Some? && n.marginTop.value != 0.0
    requires o.marginTop.Some? && o.marginTop.value != 0.0
    ensures IsDivChild(Some(n), Some(o)) <==> DivStyles.ToTuple(n) < DivStyles.ToTuple(o)
  {
  }

  // ---------------------------------------------------------------------
  // Predicates on document nodes

  /** The style source a node offers: the HTML library's text nodes are
      strings, a tag offers its `style` attribute. */
  function SourceOf(n: Node): StyleSource
  {
    match n
    case Text(c) => StyleString(c)
    case Tag(_, style, _) => Element(style)
  }

  /** A missing container (`None` in Python) is a value of another type. */
  function SourceOfContainer(n: Option<Node>): StyleSource
  {
    match n
    case None => OtherValue("NoneType")
    case Some(d) => SourceOf(d)
  }

  /** `_is_span_child` on nodes: a style that cannot be read counts as
      absent.  On tags, a missing `style` attribute is the absent style and
      a present one is parsed. */
  function SpanChildOf(node: Node, other: Node): (r: bool)
    ensures other.Tag? && other.style.None? ==> !r
    ensures node.Tag? && node.style.None? && other.Tag? && other.style.Some? ==> r
    ensures node.Tag? && node.style.Some? && other.Tag? && other.style.Some? ==>
      (r <==> IsSpanChild(Some(Parse(node.style.value)), Some(Parse(other.style.value))))
  {
    IsSpanChild(FromSource(SourceOf(node)).ToOption(), FromSource(SourceOf(other)).ToOption())
  }

  /** `_is_div_child` on containers: a missing container or one without a
      `style` attribute has the absent style; otherwise the margins of the
      parsed styles decide. */
  function DivChildOf(node: Option<Node>, other: Option<Node>): (r: bool)
    ensures other.None? || (other.value.Tag? && other.value.style.None?) ==> !r
    ensures (&& other.Some? && other.value.Tag? && other.value.style.Some?
             && (node.None? || (node.value.Tag? && node.value.style.None?))) ==> r
    ensures (&& node.Some? && node.value.Tag? && node.value.style.Some?
             && other.Some? && other.value.Tag? && other.value.style.Some?) ==>
      var n, o := DivStyles.Parse(node.value.style.value).marginTop,
                  DivStyles.Parse(other.value.style.value).marginTop;
      (r <==> n.Some? && o.Some? && n.value < o.value)
  {
    IsDivChild(DivStyles.FromSource(SourceOfContainer(node)).ToOption(),
               DivStyles.FromSource(SourceOfContainer(other)).ToOption())
  }

  /** A tag without a `style` attribute is a child of every styled tag and of
      no tag at all. */
  lemma UnstyledSpanIsChild(node: Node, other: Node)
    requires node.Tag? && node.style.None?
    requires other.Tag? && other.style.Some?
    ensures SpanChildOf(node, other) && !SpanChildOf(other, node)
    ensures forall t: Node :: !SpanChildOf(t, node)
  {
  }

  // ---------------------------------------------------------------------
  // The span predicate as the code reads

  /** The Python exceptions the code as written runs into. */
  datatype Raised = TypeError | AttributeError

  /** `FontStyle(x)`: the regular-expression searches take `x` itself, so
      anything but a string raises `TypeError`. */
  function FontStyleOf(src: StyleSource): (r: Result<FontStyles.FontStyle, Raised>)
    ensures r.Ok? <==> src.StyleString?
    ensures r.Err? ==> r.error == TypeError
  {
    if src.StyleString? then Ok(FontStyles.Parse(src.s)) else Err(TypeError)
  }

  /** `_is_span_child` as written, up to the relative check: it builds
      `FontStyle` records, catches only `ValueError`, and then reads
      `relative`, which `FontStyle` does not have. */
  function SpanChildAsWritten(node: StyleSource, other: StyleSource): (r: Result<bool, Raised>)
    ensures r.Err?
    ensures !(other.StyleString? && node.StyleString?) ==> r == Err(TypeError)
    ensures other.StyleString? && node.StyleString? ==> r == Err(AttributeError)
  {
    match FontStyleOf(other)
    case Err(e) => Err(e)
    case Ok(_) =>
      match FontStyleOf(node)
      case Err(e) => Err(e)
      case Ok(_) => Err(AttributeError)
  }

  /** On two tags, `SpanChildOf` (span style records) returns a verdict for
      every pair, where the code as written raises. */
  lemma SpanChildOfTagsAnswers(node: Node, other: Node)
    requires node.Tag? && other.Tag?
    ensures SpanChildAsWritten(SourceOf(node), SourceOf(other)) == Err(TypeError)
    ensures other.style.None? ==> !SpanChildOf(node, other)
    ensures other.style.Some? && node.style.None? ==> SpanChildOf(node, other)
  {
  }

  // ---------------------------------------------------------------------
  // Depth-first walk

  /** `_walk_soup` on an element: a tag is yielded, then (unless its name is
      in `notInto`) the walk of each child in order; text is not yielded. */
  function Walk(n: Node, notInto: set<string>): (r: seq<Node>)
    ensures forall i :: 0 <= i < |r| ==> r[i].Tag?
    ensures n.Text? ==> r == []
    ensures n.Tag? ==> r != [] && r[0] == n
    ensures n.Tag? && n.name in notInto ==> r == [n]
  {
    match n
    case Text(_) => []
    case Tag(name, _, ch) => [n] + (if name in notInto then [] else WalkAll(ch, notInto))
  }

  function WalkAll(ns: seq<Node>, notInto: set<string>): (r: seq<Node>)
    ensures forall i :: 0 <= i < |r| ==> r[i].Tag?
  {
    if ns == [] then [] else Walk(ns[0], notInto) + WalkAll(ns[1..], notInto)
  }

  /** `_walk_soup` on the document: the document object is not yielded, only
      its descendants. */
  function WalkSoup(soup: Soup, notInto: set<string>): (r: seq<Node>)
    ensures forall i :: 0 <= i < |r| ==> r[i].Tag?
  {
    if DocumentName in notInto then [] else WalkAll(soup.children, notInto)
  }

  /** Number of nodes in a tree, for the termination of `WalkWorklist`. */
  function NodeCount(n: Node): (c: nat)
    ensures c >= 1
  {
    match n
    case Text(_) => 1
    case Tag(_, _, ch) => 1 + NodeCountAll(ch)
  }

  function NodeCountAll(ns: seq<Node>): nat
  {
    if ns == [] then 0 else NodeCount(ns[0]) + NodeCountAll(ns[1..])
  }

  lemma {:induction false} NodeCountAllAppend(a: seq<Node>, b: seq<Node>)
    ensures NodeCountAll(a + b) == NodeCountAll(a) + NodeCountAll(b)
  {
    if a != [] {
      assert (a + b)[0] == a[0] && (a + b)[1..] == a[1..] + b;
      NodeCountAllAppend(a[1..], b);
    } else {
      assert a + b == b;
    }
  }

  lemma {:induction false} WalkAllAppend(a: seq<Node>, b: seq<Node>, notInto: set<string>)
    ensures WalkAll(a + b, notInto) == WalkAll(a, notInto) + WalkAll(b, notInto)
  {
    if a != [] {
      assert (a + b)[0] == a[0] && (a + b)[1..] == a[1..] + b;
      WalkAllAppend(a[1..], b, notInto);
    } else {
      assert a + b == b;
    }
  }

  /** The same traversal written as a loop over a worklist, nodes still to
      visit first: take the first node, yield it if it is a tag, and put its
      children (unless it is opaque) in front of the rest. */
  function WalkWorklist(work: seq<Node>, notInto: set<string>): seq<Node>
    decreases NodeCountAll(work)
  {
    if work == [] then []
    else
      match work[0]
      case Text(_) => WalkWorklist(work[1..], notInto)
      case Tag(name, _, ch) =>
        var next := (if name in notInto then [] else ch) + work[1..];
        NodeCountAllAppend(if name in notInto then [] else ch, work[1..]);
        assert NodeCountAll(work) == NodeCount(work[0]) + NodeCountAll(work[1..]);
        assert NodeCountAll(next) < NodeCountAll(work) by {
          assert NodeCountAll([]) == 0;
          assert NodeCount(work[0]) == 1 + NodeCountAll(ch);
        }
        [work[0]] + WalkWorklist(next, notInto)
  }

  /** The recursive walk is the worklist traversal: document order, each tag
      before its descendants, opaque tags not entered. */
  lemma {:induction false} WalkIsWorklistTraversal(work: seq<Node>, notInto: set<string>)
    ensures WalkAll(work, notInto) == WalkWorklist(work, notInto)
    decreases NodeCountAll(work)
  {
    if work != [] {
      match work[0]
      case Text(_) =>
        WalkIsWorklistTraversal(work[1..], notInto);
      case Tag(name, _, ch) =>
        var inner := if name in notInto then [] else ch;
        NodeCountAllAppend(inner, work[1..]);
        assert NodeCountAll(inner + work[1..]) < NodeCountAll(work) by {
          assert NodeCountAll(work) == NodeCount(work[0]) + NodeCountAll(work[1..]);
          assert NodeCountAll([]) == 0;
        }
        WalkIsWorklistTraversal(inner + work[1..], notInto);
        WalkAllAppend(inner, work[1..], notInto);
        assert WalkAll(inner, notInto) == (if name in notInto then [] else WalkAll(ch, notInto));
    }
  }
}
