# sec_html_parser in Dafny

sec_html_parser rebuilds the outline of an HTML filing that has no heading
tags. It works only from the inline `style` attributes of its text runs
(`span`) and block containers (`div`). This project models that core in Dafny
and proves properties of the model:

- **Style records.** The font size, weight, style and relative flag of a span
  (`SpanStyle`), the top margin of a container (`DivStyle`) and the older
  integer-only `FontStyle`. Each is read by a regular-expression search over
  the style string.
- **Child predicates.** `_is_span_child` and `_is_div_child` decide whether
  one run or container sits below another.
- **Walk.** The depth-first walk of the document, which does not enter spans
  and tables.
- **Builder.** `get_hierarchy`, the one-pass, stack-based outline builder.
- **Output.** Finishing the outline (`_clean_leaves`) and printing it as
  tab-indented text (`hierarchy_to_string`).

Modules, one per concern of the source:

- `Wrappers`: `Option` and `Result`.
- `Scan`: the regular expressions used, written as scanners.
  - `Search` is the leftmost match of a fixed key followed by a digit, a
    letter, a `pt`-terminated decimal, or anything.
  - `DecimalSpan` and `DecimalValue` are the greedy `\d+\.?\d*` group and its
    value.
- `Dom`: document nodes (text or tag), a node's text, and Python's
  `str.strip`.
- `SpanStyles`, `DivStyles`, `FontStyles`: the three style files.
- `Parser`: the two predicates, the same predicates on nodes, and the walk.
- `Tree`: two forms of the outline.
  - The outline as built: every entry is a name with a list of children.
  - The finished outline: an entry without children becomes a bare string.
  - The one-line-per-entry text form.
- `Builder`: `get_hierarchy`.
  - The Python code keeps aliased references to the child lists of open
    entries. The model keeps the stack as the right spine of the outline
    instead.
  - Each frame holds its entry's children except the entry above it.
    Popping a frame appends its entry to the frame below, or to the root.
  - The two agree because only the entries on the stack ever gain children.
  - The methods `ReadNodes` and `PopUnaccepting` run the two Python loops
    over sequence variables. They are proved equal to the fold `Run` over
    the walk, and the properties are proved about `Run`.

Three places where the model follows the code rather than its
documentation and tests:

- **The span predicate compares field by field.** A size or weight stage is
  skipped when either side lacks that field. The `to_tuple` docstring
  (sec_html_parser/span_style.py:41-42) says its keys should be used for
  this comparison instead. The two agree when both sizes and weights are
  present and non-zero and neither run is relative
  (`Parser.SpanChildIsKeyOrder`), and differ otherwise
  (`Parser.SpanChildIsNotKeyOrderWithoutSize`).
- **Tables are dropped.** `get_hierarchy` acts only on `div` and `span`
  nodes, so a table is walked past and contributes nothing.
  tests/test_parser.py:285-311 expects a `table` leaf holding the table's
  markup, which the code does not produce.
- **`FontStyle` sizes are whole numbers.** Its pattern `font-size:(\d+)`
  stops at the point, so `font-size:6.5pt` has size 6
  (`FontStyles.SizeExample`). tests/test_font_style.py:35 expects 6.5, the
  span style's value.

## Model

| member | source | states |
|---|---|---|
| Scan.DigitSpan | sec_html_parser/span_style.py:19 | the `\d+` group: a prefix of digits that cannot be extended |
| Scan.LetterSpan | sec_html_parser/span_style.py:20 | the `[a-zA-Z]+` group: a prefix of ASCII letters that cannot be extended |
| Scan.DigitsValue | sec_html_parser/span_style.py:29 | `int` of a digit string is below 10 to the number of digits |
| Scan.DigitsValueOne | sec_html_parser/span_style.py:29 | `int` of one digit is that digit's value |
| Scan.DigitsValueAppend | sec_html_parser/span_style.py:29 | positional notation: the value of `a` followed by `b` is `a`'s value times 10 to the length of `b`, plus `b`'s value |
| Scan.DigitsValueExample | sec_html_parser/span_style.py:28-29 | the digit run `400` is read whole and has the value 400 |
| Scan.DecimalSpan | sec_html_parser/span_style.py:18 | the greedy `\d+\.?\d*` group: at least the integer digits, empty exactly when the text does not start with a digit, never followed by a digit, and not followed by a dot when it has no fraction |
| Scan.DecimalValue | sec_html_parser/span_style.py:26 | `float` of that group: at least its integer part and below the next whole number, and exactly its integer part when no dot follows the digits |
| Scan.DecimalValueExact | sec_html_parser/span_style.py:26 | with a fraction, the value is the integer the digits make with the dot taken out, divided by 10 to the number of fraction digits |
| Scan.TenthsDecimal | sec_html_parser/span_style.py:26 | a lexeme of a digit, a dot and a digit spans three characters and is the first digit plus a tenth of the second |
| Scan.TenthsThenPt | sec_html_parser/div_style.py:17 | such a lexeme followed by `pt` satisfies the margin pattern |
| Scan.OneDigitDecimal | sec_html_parser/span_style.py:26 | a lone digit with neither a digit nor a dot after it spans one character and reads as that digit |
| Scan.DecimalValueExample | sec_html_parser/span_style.py:26 | the lexeme `6.5` has the value 6.5 |
| Scan.Search | sec_html_parser/span_style.py:25 | `re.search` for a key and what must follow it: the leftmost match, or `None` exactly when there is no match anywhere |
| Scan.FirstMatchUnique | sec_html_parser/span_style.py:25 | the leftmost match is unique |
| Scan.GreedyLexemeMatches | sec_html_parser/div_style.py:17 | `(\d+\.?\d*)pt` matches when the greedy decimal is followed by `pt` |
| Scan.OnlyGreedyLexemeMatches | sec_html_parser/div_style.py:17 | a decimal literal followed by `pt` at that place is the greedy one, so backtracking finds no other group |
| Scan.DecimalValueFloor | sec_html_parser/font_style.py:20-21 | the whole part of the greedy decimal is the value of its digit run |
| Scan.AnythingMatchesKeyAt | sec_html_parser/span_style.py:34-35 | a key with no follow condition matches exactly where the text occurs |
| Dom.Strip | sec_html_parser/parser.py:114 | `.strip()`: the result has no whitespace at either end and is the input with only whitespace removed from the two ends |
| SpanStyles.GetStyleString | sec_html_parser/span_style.py:63-79 | a string is returned as is; a tag gives its `style` attribute or the missing-attribute error; any other value gives the unsupported-type error |
| SpanStyles.Size | sec_html_parser/span_style.py:25-26 | `None` if and only if no `font-size:` is followed by a digit; otherwise the decimal after the first one |
| SpanStyles.Weight | sec_html_parser/span_style.py:28-29 | `None` if and only if no `font-weight:` is followed by a digit; otherwise the integer value of the digit run after the first one |
| SpanStyles.SizeAtStart | sec_html_parser/span_style.py:25-26 | a style string that starts with `font-size:` and a digit has the size of the decimal there |
| SpanStyles.WeightAtStart | sec_html_parser/span_style.py:28-29 | a style string that starts with `font-weight:` and a digit has the weight of the digit run there |
| SpanStyles.SizeExample | sec_html_parser/span_style.py:25-26 | `font-size:6.5pt` has the size 6.5, as tests/test_span_style.py:35 expects |
| SpanStyles.WholeSizeExample | sec_html_parser/span_style.py:25-26 | `font-size:9pt` has the size 9, as tests/test_span_style.py:9 expects |
| SpanStyles.WeightExample | sec_html_parser/span_style.py:28-29 | `font-weight:400` has the weight 400, as tests/test_span_style.py:10 expects |
| SpanStyles.Style | sec_html_parser/span_style.py:31-32 | `None` if and only if no `font-style:` is followed by a letter; otherwise the non-empty letter run after the first one |
| SpanStyles.Relative | sec_html_parser/span_style.py:34-35 | true if and only if `position:relative` occurs somewhere |
| SpanStyles.FromSource | sec_html_parser/span_style.py:17-35 | fails exactly when no style string can be had; a string never fails and gives its four independently read fields |
| SpanStyles.ToTuple | sec_html_parser/span_style.py:61 | an absent or zero size or weight becomes -1; the italic entry is 1 exactly for the style `italic`, else -1 |
| DivStyles.MarginTop | sec_html_parser/div_style.py:17-22 | `None` if and only if no `margin-top:` is followed by a decimal and `pt`; otherwise the decimal after the first one; another unit does not match |
| DivStyles.MarginTopAtStart | sec_html_parser/div_style.py:17-22 | a style string that starts with `margin-top:` and a decimal in points has that margin |
| DivStyles.MarginTopExample | sec_html_parser/div_style.py:17-22 | `margin-top:1.5pt;text-align:justify` has the margin 1.5, as tests/test_div_style.py:19 expects |
| DivStyles.FromSource | sec_html_parser/div_style.py:16-22 | the style string is found as for a span, with the same errors; a found string gives its margin |
| DivStyles.ToTuple | sec_html_parser/div_style.py:44 | an absent or zero margin becomes -1, and any other margin is kept |
| FontStyles.Size | sec_html_parser/font_style.py:16-21 | `None` exactly when the span style's size is `None`; otherwise that size rounded down, since `\d+` stops at the point |
| FontStyles.SizeExample | sec_html_parser/font_style.py:16-21 | `font-size:6.5pt` has the size 6 here and 6.5 as a span style |
| Parser.IsSpanChild | sec_html_parser/parser.py:14-60 | the other run without a style has no children; an unstyled run is a child of any styled one; a relative run is neither child nor parent; otherwise size decides, then weight, then italics, skipping a stage when either side lacks the field |
| Parser.SpanChildAsymmetric | sec_html_parser/parser.py:14-60 | two runs are never children of each other |
| Parser.SpanChildIrreflexive | sec_html_parser/parser.py:14-60 | no run is its own child, so equal styles are children of neither |
| Parser.SpanChildIsKeyOrder | sec_html_parser/parser.py:34-60 | when both sizes and weights are present and non-zero and neither run is relative, the predicate is the lexicographic order of `to_tuple` keys |
| Parser.SpanChildIsNotKeyOrderWithoutSize | sec_html_parser/parser.py:35-48 | a run without a size and weight 700 is not a child of one with size 10 and weight 400, though its key is smaller |
| Parser.IsDivChild | sec_html_parser/parser.py:163-184 | the same absent-style rules; with both styles present, a child exactly when both margins are present and its own is strictly smaller |
| Parser.DivChildAsymmetric | sec_html_parser/parser.py:163-184 | two containers are never children of each other |
| Parser.DivChildIrreflexive | sec_html_parser/parser.py:163-184 | no container is its own child |
| Parser.DivChildIsKeyOrder | sec_html_parser/parser.py:178-184 | with both margins present and non-zero, the predicate is the order of `to_tuple` keys |
| Parser.UnstyledSpanIsChild | sec_html_parser/parser.py:18-27 | a tag without a style is a child of every styled tag, and no node at all is its child |
| Parser.FontStyleOf | sec_html_parser/font_style.py:15-27 | `FontStyle` accepts only a string; anything else raises `TypeError` |
| Parser.SpanChildAsWritten | sec_html_parser/parser.py:18-32 | the predicate as written never returns: anything but two strings gives `TypeError`, two strings give `AttributeError` on `relative` |
| Parser.SpanChildOf | sec_html_parser/parser.py:17-27 | on tags: a tag without a `style` attribute (the `ValueError` path) has the absent style, so the other tag without one has no children and an unstyled tag is a child of a styled one; two styled tags are compared by their parsed span styles |
| Parser.DivChildOf | sec_html_parser/parser.py:166-184 | a missing container (`None`) or one without a `style` attribute has the absent style: it has no children and is a child of any styled container; two styled containers compare their parsed margins, strictly |
| Parser.SpanChildOfTagsAnswers | sec_html_parser/parser.py:18-27 | on two tags the code as written raises `TypeError`, while the model gives the intended absent-style answers |
| Parser.Walk | sec_html_parser/parser.py:77-89 | only tags are yielded; a text node yields nothing; a tag comes before its descendants; a tag whose name is opaque yields only itself |
| Parser.WalkAll | sec_html_parser/parser.py:88-89 | the walk of a list of children yields only tags |
| Parser.WalkSoup | sec_html_parser/parser.py:73-89 | the document object itself is not yielded, only tags below it |
| Parser.WalkIsWorklistTraversal | sec_html_parser/parser.py:62-89 | the walk equals the worklist traversal: document order, each tag before its descendants, opaque tags not entered |
| Tree.CleanLeaves | sec_html_parser/parser.py:147-161 | the result has no empty branch; an entry becomes a bare string exactly when it has no children; reading it back gives the outline |
| Tree.CleanAll | sec_html_parser/parser.py:161 | children are cleaned one by one, in order |
| Tree.CleanRaw | sec_html_parser/parser.py:147-161 | the dictionary form of a finished outline cleans back to that outline |
| Tree.CleanKeepsLabels | sec_html_parser/parser.py:147-161 | cleaning keeps every entry's name in pre-order |
| Tree.HierarchyToString | sec_html_parser/parser.py:186-197 | the text is the outline's lines in pre-order, each as depth tabs, name and newline |
| Tree.TabsAreTabs | sec_html_parser/parser.py:190 | `"\t" * depth` is depth tab characters |
| Tree.LinesAreEntries | sec_html_parser/parser.py:186-197 | one line per entry, carrying the names in pre-order, the first at the starting depth and none above it |
| Builder.Accepts | sec_html_parser/parser.py:120-126 | an open entry takes the span exactly when it was opened before any container, or the container test or the span test says the span is a child |
| Builder.KeepIsTopmostAccepting | sec_html_parser/parser.py:119-135 | the frames kept go up to the topmost one that accepts the span, and none above it accepts; none are kept when no frame accepts |
| Builder.KeepUnique | sec_html_parser/parser.py:119-135 | any frame count ending with an accepting frame, with none accepting above it, is the one kept |
| Builder.PopToKeepsContents | sec_html_parser/parser.py:119-135 | popping frames does not change the outline |
| Builder.PopToKeepsFrames | sec_html_parser/parser.py:119-135 | the frames left open keep their container, span and text |
| Builder.PopOne | sec_html_parser/parser.py:134-135 | one pop, moving the top frame's entry into the frame below or the root, takes the stack from k frames to k - 1 |
| Builder.Pop | sec_html_parser/parser.py:135 | `span_stack.pop()` closes exactly one frame and leaves the outline unchanged |
| Builder.PopStepsDown | sec_html_parser/parser.py:119-135 | each pop of the inner loop takes the stack from the lowest k frames to the lowest k - 1 |
| Builder.PopUnaccepting | sec_html_parser/parser.py:119-135 | the inner loop leaves exactly the frames up to the topmost accepting one |
| Builder.SpanPlacement | sec_html_parser/parser.py:113-141 | the span's entry goes under the topmost accepting frame, or under the root when none accepts; frames above are closed; the span becomes the top frame |
| Builder.OpenKeepsFrames | sec_html_parser/parser.py:119-141 | after the pops and the push, the frames kept keep their container and span, and the new frame is on top |
| Builder.OpenUnderParent | sec_html_parser/parser.py:128-141 | after the pops and the push, the outline without the new entry is unchanged, and the new entry is the last child of the frame below it, or of the root |
| Builder.PushUnder | sec_html_parser/parser.py:129-132 | a frame pushed on the stack stands for the last child of the entry below it |
| Builder.SpinePush | sec_html_parser/parser.py:129-141 | pushing a new span adds exactly its text at the end of the pre-order listing |
| Builder.PopThenPush | sec_html_parser/parser.py:119-141 | closing any number of frames and then opening a new empty entry adds exactly its text at the end of the pre-order listing |
| Builder.StepListsSpan | sec_html_parser/parser.py:110-141 | one node of the walk adds its stripped text to the listing when it is a span, and nothing otherwise |
| Builder.Step | sec_html_parser/parser.py:110-141 | one iteration: a container becomes the current one and nothing else changes; a span keeps the current container and becomes the top frame, on a stack at most one longer; other tags change nothing |
| Builder.Run | sec_html_parser/parser.py:107-141 | the loop over the walk: before the first span nothing is open or listed, and after it some frame is always open |
| Builder.HierarchyOf | sec_html_parser/parser.py:101-145 | the outline returned is finished and named `root`, and it is the bare string `root` exactly when the walk meets no span |
| Builder.RunListsSpans | sec_html_parser/parser.py:107-141 | after any prefix of the walk, the outline's entries in pre-order are the spans read so far, in document order |
| Builder.HierarchyListsSpans | sec_html_parser/parser.py:101-145 | the finished outline lists `root`, then every span's stripped text, in document order |
| Builder.NoSpansGivesRoot | sec_html_parser/parser.py:143-157 | a document without spans gives the bare string `root` |
| Builder.RenderedOutlineListsSpans | sec_html_parser/parser.py:186-197 | the printed outline of a document is `root` unindented, then each span's text in document order, each at least one tab deep |
| Builder.ReadNodes | sec_html_parser/parser.py:110-141 | the loop over the walk ends in exactly the state of the fold `Run` over the nodes |
| Builder.GetHierarchy | sec_html_parser/parser.py:101-145 | the loop builds the outline of the fold over the walk, whose pre-order listing is `root` and the span texts in document order |

## Left out

- HTML parsing with BeautifulSoup is replaced by the `Node` datatype. A tag's
  `.text` is the concatenation of its descendants' strings. The model has
  one kind of text node, so comments, doctypes and similar strings count as
  text here, while bs4's `.text` skips them (`<span><!-- x -->Text</span>`
  has the text `Text` there and ` x Text` here).
- `get_file_hierarchy` reads a file and is not modelled (file I/O).
- The `keep_nodes` parameter of `get_hierarchy` is never read, so it has no
  counterpart.
- `sec_html_parser/__main__.py` (argument handling, printing, writing
  files) is not part of this model. It calls `get_hierarchy_html`, which
  `parser.py` does not define.
- Table capture is not modelled because the code has none: tables are
  walked past and dropped.
- A semantic-HTML rendering is not part of the modelled code.
- The examples in the `to_tuple` docstrings are not proved. They contradict
  the code. In the span example the italic key is the larger one. In the
  container example neither style string has `pt` after its margin, so
  neither margin is read and both keys are `(-1.0,)`, equal rather than
  ordered.
- Scan.DigitSpan, Scan.DigitsValue, SpanStyles.Size, SpanStyles.Weight,
  DivStyles.MarginTop, FontStyles.Size: only ASCII digits `0`-`9` are read.
  Python's `\d` on a string, and `int` and `float`, also accept every other
  Unicode decimal digit (so `font-weight:٤٠٠` is weight 400 there and no
  weight here). CSS numbers are written in ASCII digits.
- Scan.DecimalSpan, Scan.DecimalValue: the greedy `\d+\.?\d*` group and
  its value read ASCII digits only, for the same reason.
- SpanStyles.Size: the size is the exact decimal written, not the nearest
  IEEE double that `float` gives. Sizes are only compared, so only ties
  between distinct decimals with the same double could differ.
- DivStyles.MarginTop: the margin is the exact decimal written, not the
  nearest IEEE double, for the same reason.
- SpanStyles.Parse, DivStyles.Parse and FontStyles.Parse build the records
  from the field readers above and carry no contract of their own.
- FontStyles.Parse uses the span style's scanners for weight and style. Its
  patterns differ from those only by the optional trailing `;`, which
  changes no match.
- Parser.IsSpanChild: the predicates take span style records, where the
  code builds `FontStyle` records (see Findings).
- The walk is a sequence, not a lazy generator.

## Findings

| source | as written | input that shows it | evidently intended | confidence | as-written member | corrected member |
|---|---|---|---|---|---|---|
| sec_html_parser/parser.py:18-32 | `_is_span_child` builds `FontStyle(other)` and `FontStyle(node)` from tags and catches only `ValueError` around each (parser.py:20, parser.py:26). `FontStyle` passes its argument straight to the regular-expression search, and it has no `relative` field. | Any document with two `span` tags. The second span meets a non-empty stack, and `FontStyle` on the first span's tag raises `TypeError`. | Span style records read from the tags' `style` attributes, as tests/test_font_style.py expects | high; not executed | Parser.SpanChildAsWritten | Parser.SpanChildOfTagsAnswers |
