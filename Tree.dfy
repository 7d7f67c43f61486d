/** The outline the parser produces, before and after leaves are cleaned,
    and its rendering as tab-indented text. */
module Tree {

  /** An entry of the outline while it is being built: the Python dictionary
      `{label: [children]}`. */
  datatype Outline = Outline(name: string, children: seq<Outline>)

  /** The finished outline: an entry without children is the bare string. */
  datatype Hierarchy = Leaf(text: string) | Branch(name: string, children: seq<Hierarchy>)

  /** No entry of a finished outline is a branch without children. */
  predicate Finalized(h: Hierarchy)
  {
    match h
    case Leaf(_) => true
    case Branch(_, cs) => cs != [] && forall i :: 0 <= i < |cs| ==> Finalized(cs[i])
  }

  /** The dictionary form of a finished outline: a string `s` stands for
      `{s: []}`. */
  function Raw(h: Hierarchy): Outline
  {
    match h
    case Leaf(s) => Outline(s, [])
    case Branch(l, cs) => Outline(l, RawAll(cs))
  }

  function RawAll(hs: seq<Hierarchy>): (r: seq<Outline>)
    ensures |r| == |hs|
  {
    if hs == [] then [] else [Raw(hs[0])] + RawAll(hs[1..])
  }

  /** `_clean_leaves`: an entry whose list is empty becomes its label;
      other entries keep their label and have their children cleaned, in
      order.  It loses nothing: `Raw` gives the outline back. */
  function CleanLeaves(o: Outline): (h: Hierarchy)
    ensures Finalized(h)
    ensures Raw(h) == o
    ensures h.Leaf? <==> o.children == []
  {
    if o.children == [] then Leaf(o.name)
    else Branch(o.name, CleanAll(o.children))
  }

  function CleanAll(os: seq<Outline>): (r: seq<Hierarchy>)
    ensures |r| == |os|
    ensures forall i :: 0 <= i < |r| ==> Finalized(r[i])
    ensures RawAll(r) == os
  {
    if os == [] then [] else [CleanLeaves(os[0])] + CleanAll(os[1..])
  }

  /** Cleaning the dictionary form of a cleaned outline changes nothing: it
      gives that outline back. */
  lemma {:induction false} CleanRaw(h: Hierarchy)
    requires Finalized(h)
    ensures CleanLeaves(Raw(h)) == h
  {
    match h
    case Leaf(_) =>
    case Branch(l, cs) =>
      CleanRawAll(cs);
  }

  lemma {:induction false} CleanRawAll(hs: seq<Hierarchy>)
    requires forall i :: 0 <= i < |hs| ==> Finalized(hs[i])
    ensures CleanAll(RawAll(hs)) == hs
  {
    if hs != [] {
      CleanRaw(hs[0]);
      CleanRawAll(hs[1..]);
    }
  }

  // ---------------------------------------------------------------------
  // Labels in pre-order

  function Labels(o: Outline): seq<string>
  {
    [o.name] + LabelsAll(o.children)
  }

  function LabelsAll(os: seq<Outline>): seq<string>
  {
    if os == [] then [] else Labels(os[0]) + LabelsAll(os[1..])
  }

  lemma {:induction false} LabelsAllAppend(a: seq<Outline>, b: seq<Outline>)
    ensures LabelsAll(a + b) == LabelsAll(a) + LabelsAll(b)
  {
    if a == [] {
      assert a + b == b;
    } else {
      assert (a + b)[0] == a[0] && (a + b)[1..] == a[1..] + b;
      LabelsAllAppend(a[1..], b);
    }
  }

  /** Every entry has a label, so an outline list without labels is empty. */
  lemma LabelsAllEmpty(os: seq<Outline>)
    requires LabelsAll(os) == []
    ensures os == []
  {
  }

  function HLabels(h: Hierarchy): seq<string>
  {
    match h
    case Leaf(s) => [s]
    case Branch(l, cs) => [l] + HLabelsAll(cs)
  }

  function HLabelsAll(hs: seq<Hierarchy>): seq<string>
  {
    if hs == [] then [] else HLabels(hs[0]) + HLabelsAll(hs[1..])
  }

  /** Cleaning keeps every label, in pre-order. */
  lemma {:induction false} CleanKeepsLabels(o: Outline)
    ensures HLabels(CleanLeaves(o)) == Labels(o)
    decreases o, 1
  {
    if o.children != [] {
      CleanKeepsLabelsAll(o.children);
    }
  }

  lemma {:induction false} CleanKeepsLabelsAll(os: seq<Outline>)
    ensures HLabelsAll(CleanAll(os)) == LabelsAll(os)
    decreases os, 0
  {
    if os != [] {
      CleanKeepsLabels(os[0]);
      CleanKeepsLabelsAll(os[1..]);
      assert CleanAll(os)[0] == CleanLeaves(os[0]) && CleanAll(os)[1..] == CleanAll(os[1..]);
    }
  }

  // ---------------------------------------------------------------------
  // Rendering

  /** One line of the text outline: the label at its depth. */
  datatype Line = Line(depth: nat, text: string)

  /** The entries of an outline in pre-order, each with its depth. */
  function Lines(h: Hierarchy, depth: nat): seq<Line>
  {
    match h
    case Leaf(s) => [Line(depth, s)]
    case Branch(l, cs) => [Line(depth, l)] + LinesAll(cs, depth + 1)
  }

  function LinesAll(hs: seq<Hierarchy>, depth: nat): seq<Line>
  {
    if hs == [] then [] else Lines(hs[0], depth) + LinesAll(hs[1..], depth)
  }

  function Tabs(n: nat): string
  {
    if n == 0 then "" else "\t" + Tabs(n - 1)
  }

  /** `"\t" * n` is `n` tab characters. */
  lemma {:induction false} TabsAreTabs(n: nat)
    ensures |Tabs(n)| == n && forall i :: 0 <= i < n ==> Tabs(n)[i] == '\t'
  {
    if n > 0 {
      TabsAreTabs(n - 1);
    }
  }

  /** Each line is its depth in tabs, its text and a newline. */
  function Render(ls: seq<Line>): string
  {
    if ls == [] then "" else Tabs(ls[0].depth) + ls[0].text + "\n" + Render(ls[1..])
  }

  lemma {:induction false} RenderAppend(a: seq<Line>, b: seq<Line>)
    ensures Render(a + b) == Render(a) + Render(b)
  {
    if a == [] {
      assert a + b == b;
    } else {
      assert (a + b)[0] == a[0] && (a + b)[1..] == a[1..] + b;
      RenderAppend(a[1..], b);
    }
  }

  lemma {:induction false} LinesAllAppend(a: seq<Hierarchy>, b: seq<Hierarchy>, depth: nat)
    ensures LinesAll(a + b, depth) == LinesAll(a, depth) + LinesAll(b, depth)
  {
    if a == [] {
      assert a + b == b;
    } else {
      assert (a + b)[0] == a[0] && (a + b)[1..] == a[1..] + b;
      LinesAllAppend(a[1..], b, depth);
    }
  }

  /** `hierarchy_to_string`: the outline as text, one line per entry in
      pre-order, each indented by one tab per level. */
  method HierarchyToString(h: Hierarchy, depth: nat) returns (s: string)
    ensures s == Render(Lines(h, depth))
    decreases h
  {
    match h
    case Leaf(text) =>
      s := Tabs(depth) + text + "\n";
    case Branch(key, children) =>
      ghost var first := [Line(depth, key)];
      s := Tabs(depth) + key + "\n";
      RenderFirst(depth, key, depth + 1);
      for i := 0 to |children|
        invariant s == Render(first + LinesAll(children[..i], depth + 1))
      {
        var line := HierarchyToString(children[i], depth + 1);
        RenderNextChild(first, children, i, depth + 1);
        s := s + line;
      }
      assert children[..|children|] == children;
  }

  /** A branch's own line, before any child is printed. */
  lemma RenderFirst(depth: nat, key: string, below: nat)
    ensures Render([Line(depth, key)] + LinesAll([], below)) == Tabs(depth) + key + "\n"
  {
    var first := [Line(depth, key)];
    assert first + LinesAll([], below) == first;
    assert first[1..] == [];
  }

  /** Printing one more child appends that child's text. */
  lemma RenderNextChild(first: seq<Line>, cs: seq<Hierarchy>, i: nat, depth: nat)
    requires i < |cs|
    ensures Render(first + LinesAll(cs[..i + 1], depth)) ==
      Render(first + LinesAll(cs[..i], depth)) + Render(Lines(cs[i], depth))
  {
    var l := Lines(cs[i], depth);
    var done := LinesAll(cs[..i], depth);
    assert cs[..i + 1] == cs[..i] + [cs[i]];
    LinesAllAppend(cs[..i], [cs[i]], depth);
    assert LinesAll([cs[i]], depth) == l by {
      assert [cs[i]][1..] == [];
      assert l + [] == l;
    }
    assert first + LinesAll(cs[..i + 1], depth) == (first + done) + l;
    RenderAppend(first + done, l);
  }

  function Texts(ls: seq<Line>): seq<string>
  {
    if ls == [] then [] else [ls[0].text] + Texts(ls[1..])
  }

  /** The lines are the entries' labels in pre-order, the first at the
      starting depth and none above it. */
  lemma {:induction false} LinesAreEntries(h: Hierarchy, depth: nat)
    ensures Texts(Lines(h, depth)) == HLabels(h)
    ensures Lines(h, depth)[0].depth == depth
    ensures forall i :: 0 <= i < |Lines(h, depth)| ==> Lines(h, depth)[i].depth >= depth
    decreases h, 1
  {
    match h
    case Leaf(_) =>
    case Branch(l, cs) =>
      LinesAreEntriesAll(cs, depth + 1);
      TextsAppend([Line(depth, l)], LinesAll(cs, depth + 1));
  }

  lemma {:induction false} LinesAreEntriesAll(hs: seq<Hierarchy>, depth: nat)
    ensures Texts(LinesAll(hs, depth)) == HLabelsAll(hs)
    ensures forall i :: 0 <= i < |LinesAll(hs, depth)| ==> LinesAll(hs, depth)[i].depth >= depth
    decreases hs, 0
  {
    if hs != [] {
      LinesAreEntries(hs[0], depth);
      LinesAreEntriesAll(hs[1..], depth);
      TextsAppend(Lines(hs[0], depth), LinesAll(hs[1..], depth));
    }
  }

  lemma {:induction false} TextsAppend(a: seq<Line>, b: seq<Line>)
    ensures Texts(a + b) == Texts(a) + Texts(b)
  {
    if a == [] {
      assert a + b == b;
    } else {
      assert (a + b)[0] == a[0] && (a + b)[1..] == a[1..] + b;
      TextsAppend(a[1..], b);
    }
  }
}
