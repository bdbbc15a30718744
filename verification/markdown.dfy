/**
 * The markdown preview renderer: the line-building loop over parser events
 * (styles pushed and popped around inline tags, list items numbered, code
 * blocks handed to the syntax highlighter, trailing blank lines trimmed)
 * and the rebuild of one side of a diff file as source text for the
 * highlighter. The parser and the highlighter are outside the model: the
 * events come in as a sequence and the highlighter is a function argument.
 */
module Markdown {
  import opened Wrappers
  import opened Text
  import opened Domain

  // ---------------------------------------------------------------------
  // Rebuilding one side of a diff file
  // ---------------------------------------------------------------------

  datatype DiffSide = LeftSide | RightSide

  function SideLine(row: DiffRow, side: DiffSide): Option<nat>
  {
    match side
    case LeftSide => row.leftLine
    case RightSide => row.rightLine
  }

  function SideText(row: DiffRow, side: DiffSide): string
  {
    match side
    case LeftSide => row.leftText
    case RightSide => row.rightText
  }

  /** The slot a line number is written to: `line.saturating_sub(1)`. */
  function Slot(line: nat): nat
  {
    if line == 0 then 0 else line - 1
  }

  /** The row carries a line number on that side that lands in `slot`. */
  predicate Writes(row: DiffRow, side: DiffSide, slot: nat)
  {
    SideLine(row, side).Some? && Slot(SideLine(row, side).value) == slot
  }

  /** The largest line number on that side, 0 when there is none. */
  function MaxLine(rows: seq<DiffRow>, side: DiffSide): nat
  {
    if |rows| == 0 then 0
    else
      var m := MaxLine(rows[..|rows| - 1], side);
      var line := SideLine(rows[|rows| - 1], side).UnwrapOr(0);
      if m >= line then m else line
  }

  /** `MaxLine` bounds every line number on that side and, when positive, is one of them. */
  lemma {:induction false} MaxLineSpec(rows: seq<DiffRow>, side: DiffSide)
    ensures forall k :: 0 <= k < |rows| && SideLine(rows[k], side).Some? ==> SideLine(rows[k], side).value <= MaxLine(rows, side)
    ensures MaxLine(rows, side) > 0 ==> exists k :: 0 <= k < |rows| && SideLine(rows[k], side) == Some(MaxLine(rows, side))
  {
    if |rows| > 0 {
      var init := rows[..|rows| - 1];
      MaxLineSpec(init, side);
      assert forall k :: 0 <= k < |init| ==> init[k] == rows[k];
    }
  }

  /** The text of the last row written to `slot`, or "" when no row is. */
  function LastTextAt(rows: seq<DiffRow>, side: DiffSide, slot: nat): string
  {
    if |rows| == 0 then ""
    else if Writes(rows[|rows| - 1], side, slot) then SideText(rows[|rows| - 1], side)
    else LastTextAt(rows[..|rows| - 1], side, slot)
  }

  /** A slot no row writes to stays empty. */
  lemma {:induction false} LastTextAtNone(rows: seq<DiffRow>, side: DiffSide, slot: nat)
    requires forall k :: 0 <= k < |rows| ==> !Writes(rows[k], side, slot)
    ensures LastTextAt(rows, side, slot) == ""
  {
    if |rows| > 0 {
      var init := rows[..|rows| - 1];
      assert forall k :: 0 <= k < |init| ==> init[k] == rows[k];
      LastTextAtNone(init, side, slot);
    }
  }

  /** A slot holds the text of the last row written to it. */
  lemma {:induction false} LastTextAtLast(rows: seq<DiffRow>, side: DiffSide, slot: nat, k: nat)
    requires k < |rows| && Writes(rows[k], side, slot)
    requires forall j :: k < j < |rows| ==> !Writes(rows[j], side, slot)
    ensures LastTextAt(rows, side, slot) == SideText(rows[k], side)
  {
    if k < |rows| - 1 {
      var init := rows[..|rows| - 1];
      assert forall j :: 0 <= j < |init| ==> init[j] == rows[j];
      LastTextAtLast(init, side, slot, k);
    }
  }

  /** The source lines of one side: one per line number up to the largest. */
  function SourceLines(rows: seq<DiffRow>, side: DiffSide): (lines: seq<string>)
    ensures |lines| == MaxLine(rows, side)
  {
    seq(MaxLine(rows, side), k requires 0 <= k => LastTextAt(rows, side, k))
  }

  /**
   * `build_diff_side_source`: nothing when no row has a line number on
   * that side; otherwise the lines up to the largest line number joined by
   * newlines, with a final newline, line `k` holding the text of the last
   * row numbered `k`.
   */
  method BuildDiffSideSource(file: DiffFile, side: DiffSide) returns (source: string)
    ensures MaxLine(file.rows, side) == 0 ==> source == ""
    ensures MaxLine(file.rows, side) > 0 ==> source == Join(SourceLines(file.rows, side), "\n") + "\n"
  {
    var rows := file.rows;
    var maxLine := LargestLine(rows, side);
    if maxLine == 0 {
      return "";
    }
    var lines := new string[maxLine](_ => "");
    FillLines(rows, side, lines);
    source := Join(lines[..], "\n") + "\n";
  }

  /** The first loop of `build_diff_side_source`: the largest line number on that side. */
  method LargestLine(rows: seq<DiffRow>, side: DiffSide) returns (maxLine: nat)
    ensures maxLine == MaxLine(rows, side)
  {
    maxLine := 0;
    for i := 0 to |rows|
      invariant maxLine == MaxLine(rows[..i], side)
    {
      assert rows[..i + 1][..i] == rows[..i];
      var line := SideLine(rows[i], side).UnwrapOr(0);
      maxLine := if maxLine >= line then maxLine else line;
    }
    assert rows[..|rows|] == rows;
  }

  /** The second loop of `build_diff_side_source`: every row's text goes to its line's slot, later rows winning. */
  method FillLines(rows: seq<DiffRow>, side: DiffSide, lines: array<string>)
    requires lines.Length == MaxLine(rows, side) > 0 && forall k :: 0 <= k < lines.Length ==> lines[k] == ""
    modifies lines
    ensures lines[..] == SourceLines(rows, side)
  {
    MaxLineSpec(rows, side);
    for i := 0 to |rows|
      invariant forall k :: 0 <= k < lines.Length ==> lines[k] == LastTextAt(rows[..i], side, k)
    {
      LastTextAtStep(rows, i, side);
      match SideLine(rows[i], side) {
        case Some(line) =>
          lines[Slot(line)] := SideText(rows[i], side);
        case None =>
      }
    }
    assert rows[..|rows|] == rows;
  }

  /** One more row: the slot it writes takes its text, every other slot keeps what it had. */
  lemma LastTextAtStep(rows: seq<DiffRow>, i: nat, side: DiffSide)
    requires i < |rows|
    ensures forall k ::
      LastTextAt(rows[..i + 1], side, k) ==
      (if Writes(rows[i], side, k) then SideText(rows[i], side) else LastTextAt(rows[..i], side, k))
  {
    assert rows[..i + 1][..i] == rows[..i];
  }

  // ---------------------------------------------------------------------
  // Line-building helpers
  // ---------------------------------------------------------------------

  datatype Modifier = Bold | Italic | CrossedOut | Underlined

  /**
   * A text style: the modifiers added on top of the base, whether the link
   * colour is set, and whether the base is the theme's text style (rather
   * than the terminal default).
   */
  datatype Style = Style(modifiers: set<Modifier>, linkColour: bool, themed: bool)

  /** The theme's text style, at the bottom of the style stack. */
  const TextStyle := Style({}, false, true)

  const DefaultStyle := Style({}, false, false)

  /** How a span is drawn: in a text style, dimmed, as inline code, or as the highlighter coloured it. */
  datatype SpanStyle = Styled(style: Style) | Dim | InlineCode | Highlighted(colour: nat)

  datatype MdSpan = MdSpan(text: string, style: SpanStyle)

  /** `push_span`: the span goes at the end of the last line, if there is one. */
  function PushSpan(lines: seq<seq<MdSpan>>, span: MdSpan): (r: seq<seq<MdSpan>>)
    ensures |r| == |lines|
    ensures |lines| > 0 ==> r[..|r| - 1] == lines[..|lines| - 1] && r[|r| - 1] == lines[|lines| - 1] + [span]
    ensures |lines| == 0 ==> r == lines
  {
    if |lines| == 0 then lines else lines[..|lines| - 1] + [lines[|lines| - 1] + [span]]
  }

  /**
   * `push_nonempty_newline`: opens a new empty line unless the last line is
   * already empty. Either way the lines end in an empty line and the lines
   * before it are kept.
   */
  function PushNonemptyNewline(lines: seq<seq<MdSpan>>): (r: seq<seq<MdSpan>>)
    ensures |r| > 0 && r[|r| - 1] == []
    ensures |lines| > 0 && lines[|lines| - 1] == [] ==> r == lines
    ensures !(|lines| > 0 && lines[|lines| - 1] == []) ==> r == lines + [[]]
  {
    if |lines| > 0 && lines[|lines| - 1] == [] then lines else lines + [[]]
  }

  /** Opening a new line twice opens it once. */
  lemma PushNonemptyNewlineIdempotent(lines: seq<seq<MdSpan>>)
    ensures PushNonemptyNewline(PushNonemptyNewline(lines)) == PushNonemptyNewline(lines)
  {
  }

  /** `pop_style_if_possible`: drops the top style unless it is the last one. */
  function PopStyleIfPossible(stack: seq<Style>): (r: seq<Style>)
    ensures |stack| >= 1 ==> |r| >= 1
    ensures |stack| > 1 ==> r == stack[..|stack| - 1]
    ensures |stack| <= 1 ==> r == stack
  {
    if |stack| > 1 then stack[..|stack| - 1] else stack
  }

  /** Popping undoes a push onto a non-empty stack, and never takes the last style away. */
  lemma PushThenPop(stack: seq<Style>, s: Style)
    requires |stack| >= 1
    ensures PopStyleIfPossible(stack + [s]) == stack
    ensures PopStyleIfPossible([s]) == [s]
  {
    assert (stack + [s])[..|stack|] == stack;
  }

  /** `style_stack.last().unwrap_or(default)`. */
  function Top(stack: seq<Style>): Style
  {
    if |stack| == 0 then DefaultStyle else stack[|stack| - 1]
  }

  /** `add_modifier`. */
  function AddModifier(s: Style, m: Modifier): Style
  {
    s.(modifiers := s.modifiers + {m})
  }

  // ---------------------------------------------------------------------
  // List items
  // ---------------------------------------------------------------------

  /** An open list: whether it is numbered, and the number of its next item. */
  datatype ListState = ListState(ordered: bool, nextIndex: nat)

  function Indent(depth: nat): string
  {
    if depth == 0 then "" else Indent(depth - 1) + "  "
  }

  /**
   * The marker of a new list item and the list stack after it: in a
   * numbered list the next number and a dot, which then counts up;
   * otherwise a dash. Either is indented two columns per enclosing list.
   */
  function StartItem(listStack: seq<ListState>): (r: (string, seq<ListState>))
  {
    var indent := Indent(if |listStack| > 0 then |listStack| - 1 else 0);
    if |listStack| > 0 && listStack[|listStack| - 1].ordered then
      var top := listStack[|listStack| - 1];
      (indent + NatToString(top.nextIndex) + ". ", listStack[..|listStack| - 1] + [top.(nextIndex := top.nextIndex + 1)])
    else (indent + "- ", listStack)
  }

  /** The markers of `k` items in a row at the same level. */
  function ItemMarkers(listStack: seq<ListState>, k: nat): (r: seq<string>)
    ensures |r| == k
    decreases k
  {
    if k == 0 then [] else [StartItem(listStack).0] + ItemMarkers(StartItem(listStack).1, k - 1)
  }

  /**
   * The items of a numbered list are numbered one by one from the list's
   * next number; the items of a bulleted list all get a dash; the
   * enclosing lists are untouched.
   */
  lemma {:induction false} ItemMarkersCountUp(listStack: seq<ListState>, k: nat)
    requires |listStack| > 0
    ensures var top := listStack[|listStack| - 1];
      forall j :: 0 <= j < k ==>
        ItemMarkers(listStack, k)[j] ==
          Indent(|listStack| - 1) + (if top.ordered then NatToString(top.nextIndex + j) + ". " else "- ")
    decreases k
  {
    if k > 0 {
      var top := listStack[|listStack| - 1];
      var next := StartItem(listStack).1;
      ItemMarkersCountUp(next, k - 1);
      assert |next| == |listStack|;
      assert next[|next| - 1] == if top.ordered then top.(nextIndex := top.nextIndex + 1) else top;
    }
  }

  /** `Tag::List(start)`: numbered when the list has a start number; counting from it, or from 1. */
  function OpenList(start: Option<nat>): ListState
  {
    ListState(start.Some?, start.UnwrapOr(1))
  }

  // ---------------------------------------------------------------------
  // The render loop
  // ---------------------------------------------------------------------

  datatype CodeBlockKind = Fenced(lang: string) | Indented

  datatype Tag =
    | ParagraphTag | HeadingTag | StrongTag | EmphasisTag | StrikethroughTag
    | ListTag(start: Option<nat>) | ItemTag | CodeBlockTag(kind: CodeBlockKind) | LinkTag | OtherTag

  datatype TagEnd =
    | ParagraphEnd | HeadingEnd | StrongEnd | EmphasisEnd | StrikethroughEnd | LinkEnd
    | ItemEnd | ListEnd | CodeBlockEnd | OtherEnd

  /** The parser events the renderer reacts to. */
  datatype Event =
    | Start(tag: Tag) | End(tagEnd: TagEnd) | TextEvent(text: string) | CodeEvent(code: string)
    | SoftBreak | HardBreak | Rule | OtherEvent

  datatype CodeBlockState = CodeBlockState(language: string, content: string)

  /** The horizontal rule: forty box-drawing dashes. */
  const RuleText: string := "────────────────────────────────────────"

  /**
   * The trailing-line trim of `render`: empty lines are dropped from the
   * end while more than one line is left. The result is a prefix of the
   * lines, only empty lines were dropped, and it ends in a non-empty line
   * unless it is a single line.
   */
  method TrimTrailingEmptyLines(lines: seq<seq<MdSpan>>) returns (trimmed: seq<seq<MdSpan>>)
    requires |lines| >= 1
    ensures 1 <= |trimmed| <= |lines| && trimmed == lines[..|trimmed|]
    ensures forall k :: |trimmed| <= k < |lines| ==> lines[k] == []
    ensures |trimmed| > 1 ==> trimmed[|trimmed| - 1] != []
  {
    trimmed := lines;
    while trimmed[|trimmed| - 1] == [] && |trimmed| > 1
      invariant 1 <= |trimmed| <= |lines| && trimmed == lines[..|trimmed|]
      invariant forall k :: |trimmed| <= k < |lines| ==> lines[k] == []
      decreases |trimmed|
    {
      trimmed := trimmed[..|trimmed| - 1];
    }
  }

  /**
   * One event outside a code block: the lines, the style stack, the list
   * stack, and the code block the event opens (if any).
   */
  method RenderEvent(event: Event, lines: seq<seq<MdSpan>>, styleStack: seq<Style>, listStack: seq<ListState>)
    returns (lines': seq<seq<MdSpan>>, styleStack': seq<Style>, listStack': seq<ListState>, code: Option<CodeBlockState>)
    requires |lines| >= 1 && |styleStack| >= 1
    ensures |lines'| >= 1 && |styleStack'| >= 1
    ensures event.Start? && event.tag.ItemTag? ==>
      var (marker, stack) := StartItem(listStack);
      lines' == PushSpan(PushNonemptyNewline(lines), MdSpan(marker, Dim)) && listStack' == stack
    ensures event.Start? && event.tag.ListTag? ==> listStack' == listStack + [OpenList(event.tag.start)]
    ensures event.End? && event.tagEnd.ListEnd? ==> listStack' == (if |listStack| > 0 then listStack[..|listStack| - 1] else [])
    ensures event.TextEvent? ==> lines' == PushSpan(lines, MdSpan(event.text, Styled(Top(styleStack))))
    ensures code.Some? <==> event.Start? && event.tag.CodeBlockTag?
  {
    lines', styleStack', listStack', code := lines, styleStack, listStack, None;
    match event {
      case Start(tag) =>
        match tag {
          case HeadingTag =>
            lines' := PushNonemptyNewline(lines);
            styleStack' := styleStack + [AddModifier(Top(styleStack), Bold)];
          case StrongTag =>
            styleStack' := styleStack + [AddModifier(Top(styleStack), Bold)];
          case EmphasisTag =>
            styleStack' := styleStack + [AddModifier(Top(styleStack), Italic)];
          case StrikethroughTag =>
            styleStack' := styleStack + [AddModifier(Top(styleStack), CrossedOut)];
          case ListTag(start) =>
            listStack' := listStack + [OpenList(start)];
          case ItemTag =>
            lines' := PushNonemptyNewline(lines);
            var (marker, stack) := StartItem(listStack);
            listStack' := stack;
            lines' := PushSpan(lines', MdSpan(marker, Dim));
          case CodeBlockTag(kind) =>
            lines' := PushNonemptyNewline(lines);
            var language := match kind
              case Fenced(lang) => lang
              case Indented => "text";
            code := Some(CodeBlockState(language, ""));
          case LinkTag =>
            styleStack' := styleStack + [AddModifier(Top(styleStack), Underlined).(linkColour := true)];
          case ParagraphTag =>
          case OtherTag =>
        }
      case End(tagEnd) =>
        match tagEnd {
          case ParagraphEnd =>
            lines' := PushNonemptyNewline(lines) + [[]];
          case HeadingEnd =>
            styleStack' := PopStyleIfPossible(styleStack);
            lines' := PushNonemptyNewline(lines) + [[]];
          case StrongEnd =>
            styleStack' := PopStyleIfPossible(styleStack);
          case EmphasisEnd =>
            styleStack' := PopStyleIfPossible(styleStack);
          case StrikethroughEnd =>
            styleStack' := PopStyleIfPossible(styleStack);
          case LinkEnd =>
            styleStack' := PopStyleIfPossible(styleStack);
          case ItemEnd =>
            lines' := PushNonemptyNewline(lines);
          case ListEnd =>
            listStack' := if |listStack| > 0 then listStack[..|listStack| - 1] else [];
            lines' := PushNonemptyNewline(lines);
          case CodeBlockEnd =>
          case OtherEnd =>
        }
      case TextEvent(content) =>
        lines' := PushSpan(lines, MdSpan(content, Styled(Top(styleStack))));
      case CodeEvent(content) =>
        lines' := PushSpan(lines, MdSpan("`" + content + "`", InlineCode));
      case SoftBreak =>
        lines' := PushNonemptyNewline(lines);
      case HardBreak =>
        lines' := PushNonemptyNewline(lines);
      case Rule =>
        lines' := PushNonemptyNewline(lines);
        lines' := PushSpan(lines', MdSpan(RuleText, Dim));
        lines' := PushNonemptyNewline(lines');
      case OtherEvent =>
    }
  }

  /** The highlighted lines of a code block, each indented by a dimmed two-space span. */
  function CodeLines(highlighted: seq<seq<MdSpan>>): (r: seq<seq<MdSpan>>)
    ensures |r| == |highlighted|
    ensures forall k :: 0 <= k < |r| ==> r[k] == [MdSpan("  ", Dim)] + highlighted[k]
  {
    seq(|highlighted|, k requires 0 <= k < |highlighted| => [MdSpan("  ", Dim)] + highlighted[k])
  }

  /**
   * One event inside a code block: text and breaks are collected; the end
   * of the block hands the collected text to the highlighter, adds its lines
   * indented and an empty line, and closes the block.
   */
  function CodeBlockEvent(event: Event, code: CodeBlockState, lines: seq<seq<MdSpan>>,
                          highlight: (string, string) -> seq<seq<MdSpan>>)
    : (r: (seq<seq<MdSpan>>, Option<CodeBlockState>))
    ensures |lines| >= 1 ==> |r.0| >= 1
    ensures r.1.None? <==> event == End(CodeBlockEnd)
    ensures r.1.Some? ==> r.0 == lines && r.1.value.language == code.language
  {
    match event
    case TextEvent(content) => (lines, Some(code.(content := code.content + content)))
    case CodeEvent(content) => (lines, Some(code.(content := code.content + content)))
    case SoftBreak => (lines, Some(code.(content := code.content + "\n")))
    case HardBreak => (lines, Some(code.(content := code.content + "\n")))
    case End(CodeBlockEnd) => (lines + CodeLines(highlight(code.language, code.content)) + [[]], None)
    case _ => (lines, Some(code))
  }

  /**
   * `render`: the events turned into lines. There is always at least one
   * line, and trailing empty lines are gone unless only one line is left.
   */
  method Render(events: seq<Event>, highlight: (string, string) -> seq<seq<MdSpan>>) returns (rendered: seq<seq<MdSpan>>)
    ensures |rendered| >= 1
    ensures |rendered| > 1 ==> rendered[|rendered| - 1] != []
  {
    var lines: seq<seq<MdSpan>> := [[]];
    var styleStack: seq<Style> := [TextStyle];
    var listStack: seq<ListState> := [];
    var inCodeBlock: Option<CodeBlockState> := None;
    for i := 0 to |events|
      invariant |lines| >= 1 && |styleStack| >= 1
    {
      if inCodeBlock.Some? {
        lines, inCodeBlock := CodeBlockEvent(events[i], inCodeBlock.value, lines, highlight).0,
                              CodeBlockEvent(events[i], inCodeBlock.value, lines, highlight).1;
        continue;
      }
      lines, styleStack, listStack, inCodeBlock := RenderEvent(events[i], lines, styleStack, listStack);
    }
    rendered := TrimTrailingEmptyLines(lines);
  }
}
