/** `get_hierarchy`: one pass over the walk of the document that turns the
    styled text runs into a nested outline, using a stack of open entries.

    The Python code keeps, for each open entry, a reference to the child list
    of its dictionary, which is already inside the result.  Only entries on
    the stack ever gain children, and each stack entry's dictionary is the
    last child of the entry below it (of the root, for the lowest).  So the
    model keeps the stack as the right spine of the outline: a frame holds
    the children its entry has apart from the entry just above it, and
    popping a frame appends its entry to the frame below. */
module Builder {
  import opened Wrappers
  import opened Dom
  import opened Parser
  import opened Tree

  /** The tags the walk does not enter: a span's text and a table's cells
      are not visited one by one. */
  const NotInto: set<string> := {"span", "table"}

  predicate IsSpan(n: Node) { n.Tag? && n.name == "span" }

  predicate IsDiv(n: Node) { n.Tag? && n.name == "div" }

  /** An open entry: the container seen last when its span was read, the
      span, its text, and its children except the entry above it. */
  datatype Frame = Frame(div: Option<Node>, span: Node, name: string, children: seq<Outline>)

  /** Whether the open entry read under container `parentDiv` from span
      `parentSpan` takes the incoming span as a child: one opened before any
      container always does; otherwise the container predicate or the span
      predicate must say so. */
  function Accepts(parentDiv: Option<Node>, parentSpan: Node, elementDiv: Option<Node>, span: Node): (r: bool)
    ensures r <==> parentDiv.None? || DivChildOf(elementDiv, parentDiv) || SpanChildOf(span, parentSpan)
  {
    var divChild := if parentDiv.None? then true else DivChildOf(elementDiv, parentDiv);
    var spanChild := SpanChildOf(span, parentSpan);
    (divChild && !spanChild) || spanChild
  }

  /** The entries the open frames stand for, with the bottom frame first:
      each frame's entry is the last child of the frame below it. */
  function Spine(stack: seq<Frame>): (r: seq<Outline>)
    ensures |r| == if stack == [] then 0 else 1
  {
    if stack == [] then [] else [Outline(stack[0].name, stack[0].children + Spine(stack[1..]))]
  }

  /** The root's children as the Python result holds them at this point. */
  function Contents(root: seq<Outline>, stack: seq<Frame>): seq<Outline>
  {
    root + Spine(stack)
  }

  /** Root and stack once every frame above the lowest `k` is popped: the
      entries of the popped frames go to frame `k - 1`, or to the root. */
  function PopTo(root: seq<Outline>, stack: seq<Frame>, k: nat): (r: (seq<Outline>, seq<Frame>))
    requires k <= |stack|
    ensures |r.1| == k
  {
    if k == |stack| then (root, stack)
    else if k == 0 then (root + Spine(stack), [])
    else
      var f := stack[k - 1];
      (root, stack[..k - 1] + [f.(children := f.children + Spine(stack[k..]))])
  }

  /** The length of the longest prefix of `v` that ends in `true`. */
  function LastTrue(v: seq<bool>): (k: nat)
    ensures k <= |v|
    ensures k > 0 ==> v[k - 1]
    ensures forall j :: k <= j < |v| ==> !v[j]
  {
    if v == [] || v[|v| - 1] then |v| else LastTrue(v[..|v| - 1])
  }

  /** How many frames stay open for an incoming span: all up to the topmost
      one that accepts it (`KeepIsTopmostAccepting`). */
  function Keep(stack: seq<Frame>, elementDiv: Option<Node>, span: Node): (k: nat)
    ensures k <= |stack|
  {
    LastTrue(Verdicts(stack, elementDiv, span))
  }

  /** Whether each open frame accepts the incoming span. */
  function Verdicts(stack: seq<Frame>, elementDiv: Option<Node>, span: Node): (v: seq<bool>)
    ensures |v| == |stack|
  {
    seq(|stack|, j requires 0 <= j < |stack| => Accepts(stack[j].div, stack[j].span, elementDiv, span))
  }

  /** The frames kept end with the topmost one that accepts the span, and
      none are kept when no frame does. */
  lemma KeepIsTopmostAccepting(stack: seq<Frame>, elementDiv: Option<Node>, span: Node)
    ensures var k := Keep(stack, elementDiv, span);
      && (k > 0 ==> Accepts(stack[k - 1].div, stack[k - 1].span, elementDiv, span))
      && (forall j :: k <= j < |stack| ==> !Accepts(stack[j].div, stack[j].span, elementDiv, span))
  {
    var v := Verdicts(stack, elementDiv, span);
    assert forall j :: 0 <= j < |stack| ==> v[j] == Accepts(stack[j].div, stack[j].span, elementDiv, span);
  }

  /** The builder's state between two nodes of the walk. */
  datatype State = State(root: seq<Outline>, stack: seq<Frame>, div: Option<Node>)

  /** One node of the walk: a container becomes the current one; a span pops
      the frames that do not accept it and is opened above the rest. */
  function Step(st: State, n: Node): (r: State)
    ensures IsDiv(n) ==> r == st.(div := Some(n))
    ensures !IsDiv(n) && !IsSpan(n) ==> r == st
    ensures IsSpan(n) ==> && r.div == st.div && 0 < |r.stack| <= |st.stack| + 1
                          && r.stack[|r.stack| - 1] == Frame(st.div, n, Strip(TextOf(n)), [])
  {
    if IsDiv(n) then st.(div := Some(n))
    else if IsSpan(n) then
      var k := Keep(st.stack, st.div, n);
      var (root, stack) := PopTo(st.root, st.stack, k);
      State(root, stack + [Frame(st.div, n, Strip(TextOf(n)), [])], st.div)
    else st
  }

  /** The state once the nodes given have been read: nothing is open and
      nothing is listed until the first span, and after it some frame is
      always open. */
  function Run(nodes: seq<Node>): (r: State)
    ensures (forall i :: 0 <= i < |nodes| ==> !IsSpan(nodes[i])) ==> r.root == [] && r.stack == []
    ensures (exists i :: 0 <= i < |nodes| && IsSpan(nodes[i])) ==> r.stack != []
  {
    if nodes == [] then State([], [], None)
    else Step(Run(nodes[..|nodes| - 1]), nodes[|nodes| - 1])
  }

  /** The outline `get_hierarchy` returns for a document. */
  function HierarchyOf(soup: Soup): (h: Hierarchy)
    ensures Finalized(h)
    ensures h.Leaf? ==> h.text == "root"
    ensures h.Branch? ==> h.name == "root"
    ensures var w := WalkSoup(soup, NotInto); h.Leaf? <==> forall i :: 0 <= i < |w| ==> !IsSpan(w[i])
  {
    var st := Run(WalkSoup(soup, NotInto));
    CleanLeaves(Outline("root", Contents(st.root, st.stack)))
  }

  /** The stripped texts of the spans, in the order given. */
  function SpanTexts(nodes: seq<Node>): seq<string>
  {
    if nodes == [] then []
    else
      var n := nodes[|nodes| - 1];
      SpanTexts(nodes[..|nodes| - 1]) + (if IsSpan(n) then [Strip(TextOf(n))] else [])
  }

  // ---------------------------------------------------------------------
  // The stack is the right spine

  lemma {:induction false} SpineFold(pre: seq<Frame>, f: Frame, post: seq<Frame>)
    ensures Spine(pre + [f.(children := f.children + Spine(post))]) == Spine(pre + [f] + post)
  {
    if pre == [] {
      assert ([f] + post)[0] == f && ([f] + post)[1..] == post;
      assert [f.(children := f.children + Spine(post))][1..] == [];
      assert f.children + Spine(post) + [] == f.children + Spine(post);
      assert pre + [f.(children := f.children + Spine(post))] == [f.(children := f.children + Spine(post))];
      assert pre + [f] + post == [f] + post;
    } else {
      var g := f.(children := f.children + Spine(post));
      assert (pre + [g])[0] == pre[0] && (pre + [g])[1..] == pre[1..] + [g];
      assert (pre + [f] + post)[0] == pre[0] && (pre + [f] + post)[1..] == pre[1..] + [f] + post;
      SpineFold(pre[1..], f, post);
    }
  }

  /** Popping frames does not change the outline: it only moves entries from
      the spine into the children of the frame below. */
  lemma PopToKeepsContents(root: seq<Outline>, stack: seq<Frame>, k: nat)
    requires k <= |stack|
    ensures var (r, s) := PopTo(root, stack, k); Contents(r, s) == Contents(root, stack)
  {
    if 0 < k < |stack| {
      SpineFold(stack[..k - 1], stack[k - 1], stack[k..]);
      assert stack[..k - 1] + [stack[k - 1]] + stack[k..] == stack;
    } else if k == 0 {
      assert Spine([]) == [];
      assert root + Spine(stack) + [] == root + Spine(stack);
    }
  }

  /** The frames that stay open keep their container, span and text. */
  lemma PopToKeepsFrames(root: seq<Outline>, stack: seq<Frame>, k: nat)
    requires k <= |stack|
    ensures var s := PopTo(root, stack, k).1;
      forall j :: 0 <= j < k ==>
        s[j].div == stack[j].div && s[j].span == stack[j].span && s[j].name == stack[j].name
    ensures forall j :: 0 <= j < k - 1 ==> PopTo(root, stack, k).1[j] == stack[j]
  {
  }

  /** `span_stack.pop()`: the top frame is closed, and its entry becomes the
      last child of the frame below, or of the root when it was the only one. */
  function Pop(root: seq<Outline>, stack: seq<Frame>): (r: (seq<Outline>, seq<Frame>))
    requires stack != []
    ensures |r.1| == |stack| - 1
    ensures Contents(r.0, r.1) == Contents(root, stack)
    ensures forall j :: 0 <= j < |r.1| ==>
      r.1[j].div == stack[j].div && r.1[j].span == stack[j].span && r.1[j].name == stack[j].name
  {
    var top := stack[|stack| - 1];
    var rest := stack[..|stack| - 1];
    var entry := Outline(top.name, top.children);
    PopToKeepsContents(root, stack, |stack| - 1);
    PopOne(root, stack, |stack|);
    if rest == [] then (root + [entry], [])
    else (root, rest[..|rest| - 1] + [rest[|rest| - 1].(children := rest[|rest| - 1].children + [entry])])
  }

  /** Popping the top frame of `PopTo(.., k)` gives `PopTo(.., k - 1)`. */
  lemma PopOne(root: seq<Outline>, stack: seq<Frame>, k: nat)
    requires 0 < k <= |stack|
    ensures var (r, s) := PopTo(root, stack, k);
      var top := s[k - 1];
      var rest := s[..k - 1];
      var entry := Outline(top.name, top.children);
      PopTo(root, stack, k - 1) ==
        if rest == [] then (r + [entry], [])
        else (r, rest[..k - 2] + [rest[k - 2].(children := rest[k - 2].children + [entry])])
  {
    var (r, s) := PopTo(root, stack, k);
    var top := s[k - 1];
    assert stack[k - 1..][0] == stack[k - 1] && stack[k - 1..][1..] == stack[k..];
    if k == |stack| {
      assert Spine(stack[k..]) == [];
      assert top.children == top.children + Spine(stack[k..]);
    }
    assert Spine(stack[k - 1..]) == [Outline(top.name, top.children)];
    if k == 1 {
      assert stack[k - 1..] == stack;
    } else {
      var rest := s[..k - 1];
      assert rest == stack[..k - 1];
      assert rest != [] && rest[..k - 2] == stack[..k - 2] && rest[k - 2] == stack[k - 2];
      assert r == root;
    }
  }

  /** The next pop of the inner loop takes `PopTo(.., k)` to `PopTo(.., k - 1)`. */
  lemma PopStepsDown(root: seq<Outline>, stack: seq<Frame>, k: nat)
    requires 0 < k <= |stack|
    ensures var (r, s) := PopTo(root, stack, k); Pop(r, s) == PopTo(root, stack, k - 1)
  {
    PopOne(root, stack, k);
  }

  /** The frame count the loop stops at is the one `Keep` describes. */
  lemma KeepUnique(stack: seq<Frame>, elementDiv: Option<Node>, span: Node, m: nat)
    requires m <= |stack|
    requires m > 0 ==> Accepts(stack[m - 1].div, stack[m - 1].span, elementDiv, span)
    requires forall j :: m <= j < |stack| ==> !Accepts(stack[j].div, stack[j].span, elementDiv, span)
    ensures Keep(stack, elementDiv, span) == m
  {
    KeepIsTopmostAccepting(stack, elementDiv, span);
  }

  // ---------------------------------------------------------------------
  // Where a span goes

  /** A span is attached under the frame `Keep` leaves on top, which is the
      topmost one that accepts it (`KeepIsTopmostAccepting`), or under the
      root when no frame is left; every frame above is closed, and the span
      becomes the top frame. */
  lemma SpanPlacement(st: State, n: Node)
    requires IsSpan(n)
    ensures var k := Keep(st.stack, st.div, n);
      var next := Step(st, n);
      && |next.stack| == k + 1
      && next.stack[k] == Frame(st.div, n, Strip(TextOf(n)), [])
      && (forall j :: 0 <= j < k ==>
            next.stack[j].div == st.stack[j].div && next.stack[j].span == st.stack[j].span)
      && (k > 0 ==> next.root == st.root)
      && (k == 0 ==> next.root == Contents(st.root, st.stack))
      && Contents(next.root, next.stack[..k]) == Contents(st.root, st.stack)
      && (k > 0 ==>
            var parent := next.stack[k - 1];
            Spine(next.stack) ==
              Spine(next.stack[..k - 1] + [parent.(children := parent.children + [Outline(Strip(TextOf(n)), [])])]))
  {
    var k := Keep(st.stack, st.div, n);
    var f := Frame(st.div, n, Strip(TextOf(n)), []);
    OpenKeepsFrames(st.root, st.stack, k, f);
    OpenUnderParent(st.root, st.stack, k, f);
  }

  /** Closing all frames above the lowest `k` and opening `f`: the frames
      kept keep their container and span, and `f` is on top. */
  lemma OpenKeepsFrames(root: seq<Outline>, stack: seq<Frame>, k: nat, f: Frame)
    requires k <= |stack|
    ensures var next := PopTo(root, stack, k).1 + [f];
      && |next| == k + 1
      && next[k] == f
      && (forall j :: 0 <= j < k ==> next[j].div == stack[j].div && next[j].span == stack[j].span)
  {
    PopToKeepsFrames(root, stack, k);
  }

  /** Closing all frames above the lowest `k` and opening `f`: the outline
      without `f` is unchanged, and `f`'s entry is the last child of frame
      `k - 1`, or of the root. */
  lemma OpenUnderParent(root: seq<Outline>, stack: seq<Frame>, k: nat, f: Frame)
    requires k <= |stack|
    ensures var (r, s) := PopTo(root, stack, k);
      var next := s + [f];
      && (k > 0 ==> r == root)
      && (k == 0 ==> r == Contents(root, stack))
      && Contents(r, next[..k]) == Contents(root, stack)
      && (k > 0 ==>
            var parent := next[k - 1];
            Spine(next) == Spine(next[..k - 1] + [parent.(children := parent.children + [Outline(f.name, f.children)])]))
  {
    var (r, s) := PopTo(root, stack, k);
    PopToKeepsContents(root, stack, k);
    assert (s + [f])[..k] == s;
    if k > 0 {
      PushUnder(s, f);
      assert (s + [f])[..k - 1] == s[..k - 1] && (s + [f])[k - 1] == s[k - 1];
    }
  }

  /** A frame pushed on a non-empty stack stands for the last child of the
      entry below it. */
  lemma PushUnder(stack: seq<Frame>, f: Frame)
    requires stack != []
    ensures var top := stack[|stack| - 1];
      Spine(stack + [f]) ==
        Spine(stack[..|stack| - 1] + [top.(children := top.children + [Outline(f.name, f.children)])])
  {
    var k := |stack|;
    var pre, top := stack[..k - 1], stack[k - 1];
    calc {
      Spine(stack + [f]);
    == { assert pre + [top] == stack; }
      Spine(pre + [top] + [f]);
    == { SpineFold(pre, top, [f]); }
      Spine(pre + [top.(children := top.children + Spine([f]))]);
    == { SpineOfOne(f); }
      Spine(pre + [top.(children := top.children + [Outline(f.name, f.children)])]);
    }
  }

  lemma SpineOfOne(f: Frame)
    ensures Spine([f]) == [Outline(f.name, f.children)]
  {
    assert [f][1..] == [];
    assert f.children + Spine([]) == f.children;
  }

  // ---------------------------------------------------------------------
  // The outline lists the spans in document order

  lemma {:induction false} SpinePush(stack: seq<Frame>, f: Frame)
    requires f.children == []
    ensures LabelsAll(Spine(stack + [f])) == LabelsAll(Spine(stack)) + [f.name]
  {
    if stack == [] {
      assert [f][1..] == [];
      assert [] + Spine([]) == [];
      assert stack + [f] == [f];
    } else {
      var g := stack[0];
      assert (stack + [f])[0] == g && (stack + [f])[1..] == stack[1..] + [f];
      SpinePush(stack[1..], f);
      LabelsAllAppend(g.children, Spine(stack[1..] + [f]));
      LabelsAllAppend(g.children, Spine(stack[1..]));
    }
  }

  /** Closing any number of frames and then opening a new empty one adds
      exactly its text at the end of the pre-order listing. */
  lemma PopThenPush(root: seq<Outline>, stack: seq<Frame>, k: nat, f: Frame)
    requires k <= |stack| && f.children == []
    ensures var (r, s) := PopTo(root, stack, k);
      LabelsAll(Contents(r, s + [f])) == LabelsAll(Contents(root, stack)) + [f.name]
  {
    var (r, s) := PopTo(root, stack, k);
    PopToKeepsContents(root, stack, k);
    SpinePush(s, f);
    LabelsAllAppend(r, Spine(s + [f]));
    LabelsAllAppend(r, Spine(s));
  }

  /** One node of the walk adds its text to the listing if it is a span, and
      nothing otherwise. */
  lemma StepListsSpan(st: State, n: Node)
    ensures var next := Step(st, n);
      LabelsAll(Contents(next.root, next.stack)) ==
        LabelsAll(Contents(st.root, st.stack)) + (if IsSpan(n) then [Strip(TextOf(n))] else [])
  {
    if IsSpan(n) {
      PopThenPush(st.root, st.stack, Keep(st.stack, st.div, n), Frame(st.div, n, Strip(TextOf(n)), []));
    } else {
      var l := LabelsAll(Contents(st.root, st.stack));
      assert l + [] == l;
    }
  }

  /** After any prefix of the walk, the outline's entries are the spans read
      so far, in document order. */
  lemma {:induction false} RunListsSpans(nodes: seq<Node>)
    ensures LabelsAll(Contents(Run(nodes).root, Run(nodes).stack)) == SpanTexts(nodes)
  {
    if nodes != [] {
      var init := nodes[..|nodes| - 1];
      RunListsSpans(init);
      StepListsSpan(Run(init), nodes[|nodes| - 1]);
    }
  }

  /** The finished outline: `root`, then the text of every span of the
      document, in document order. */
  lemma HierarchyListsSpans(soup: Soup)
    ensures HLabels(HierarchyOf(soup)) == ["root"] + SpanTexts(WalkSoup(soup, NotInto))
  {
    var st := Run(WalkSoup(soup, NotInto));
    RunListsSpans(WalkSoup(soup, NotInto));
    CleanKeepsLabels(Outline("root", Contents(st.root, st.stack)));
  }

  /** A document without spans gives the bare string `root`. */
  lemma NoSpansGivesRoot(soup: Soup)
    requires SpanTexts(WalkSoup(soup, NotInto)) == []
    ensures HierarchyOf(soup) == Leaf("root")
  {
    var st := Run(WalkSoup(soup, NotInto));
    RunListsSpans(WalkSoup(soup, NotInto));
    LabelsAllEmpty(Contents(st.root, st.stack));
  }

  /** Its text form has one line per entry: `root` unindented, then the text
      of every span in document order, each indented by at least one tab. */
  lemma RenderedOutlineListsSpans(soup: Soup)
    ensures var ls := Lines(HierarchyOf(soup), 0);
      && Texts(ls) == ["root"] + SpanTexts(WalkSoup(soup, NotInto))
      && ls[0] == Line(0, "root")
      && forall i :: 1 <= i < |ls| ==> ls[i].depth >= 1
  {
    var h := HierarchyOf(soup);
    HierarchyListsSpans(soup);
    LinesAreEntries(h, 0);
    match h
    case Leaf(_) =>
    case Branch(_, cs) =>
      LinesAreEntriesAll(cs, 1);
  }

  // ---------------------------------------------------------------------
  // The Python loop

  /** The inner loop of `get_hierarchy`: pop the open entries that do not
      accept `span`, each into the one below it or into the root. */
  method PopUnaccepting(root0: seq<Outline>, stack0: seq<Frame>, elementDiv: Option<Node>, span: Node)
    returns (root: seq<Outline>, spanStack: seq<Frame>)
    ensures (root, spanStack) == PopTo(root0, stack0, Keep(stack0, elementDiv, span))
  {
    root, spanStack := root0, stack0;
    while spanStack != []
      invariant |spanStack| <= |stack0|
      invariant (root, spanStack) == PopTo(root0, stack0, |spanStack|)
      invariant forall j :: |spanStack| <= j < |stack0| ==> !Accepts(stack0[j].div, stack0[j].span, elementDiv, span)
      decreases |spanStack|
    {
      var top := spanStack[|spanStack| - 1];
      PopToKeepsFrames(root0, stack0, |spanStack|);
      if Accepts(top.div, top.span, elementDiv, span) {
        break;
      }
      PopStepsDown(root0, stack0, |spanStack|);
      var (r, s) := Pop(root, spanStack);
      root, spanStack := r, s;
    }
    KeepUnique(stack0, elementDiv, span, |spanStack|);
  }

  /** The loop of `get_hierarchy`: each node of the walk in turn updates the
      current container, the span stack and the finished top-level entries. */
  method ReadNodes(nodes: seq<Node>) returns (root: seq<Outline>, spanStack: seq<Frame>, elementDiv: Option<Node>)
    ensures State(root, spanStack, elementDiv) == Run(nodes)
  {
    root, spanStack, elementDiv := [], [], None;
    for i := 0 to |nodes|
      invariant State(root, spanStack, elementDiv) == Run(nodes[..i])
    {
      var node := nodes[i];
      assert nodes[..i + 1][..i] == nodes[..i];
      if IsDiv(node) {
        elementDiv := Some(node);
      } else if IsSpan(node) {
        var content := Strip(TextOf(node));
        var element := Frame(elementDiv, node, content, []);
        root, spanStack := PopUnaccepting(root, spanStack, elementDiv, node);
        spanStack := spanStack + [element];
      }
    }
    assert nodes[..|nodes|] == nodes;
  }

  /** `get_hierarchy`: the outline of the document, whose labels in pre-order
      are `root` and the stripped texts of the spans in document order. */
  method GetHierarchy(soup: Soup) returns (h: Hierarchy)
    ensures h == HierarchyOf(soup)
    ensures HLabels(h) == ["root"] + SpanTexts(WalkSoup(soup, NotInto))
  {
    var nodes := WalkSoup(soup, NotInto);
    var root, spanStack, _ := ReadNodes(nodes);
    h := CleanLeaves(Outline("root", Contents(root, spanStack)));
    HierarchyListsSpans(soup);
  }
}
