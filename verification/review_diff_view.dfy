/**
 * The helpers of the review diff pane: the highlight ranges of one side of
 * a row clipped to the visible text and merged, whether they cover that
 * text, the per-character highlight mask, the grouping of characters into
 * styled runs, the filler of alignment gaps, and which rows are drawn with
 * which marker.
 *
 * Styles and colours are type parameters: the model keeps their identity
 * and equality and takes the "override the foreground" operation as a
 * function argument.
 */
module ReviewDiffView {
  import opened Wrappers
  import opened Domain
  import opened PendingComments
  import Diff

  // ---------------------------------------------------------------------
  // Clipping and merging highlight ranges
  // ---------------------------------------------------------------------

  /** A range cut down to the first `n` characters. */
  function Clip(r: HighlightRange, n: nat): HighlightRange
  {
    HighlightRange(Min(r.start, n), Min(r.end, n))
  }

  /** The `filter_map` step: every range clipped, the ones left empty dropped, order kept. */
  function Clipped(ranges: seq<HighlightRange>, n: nat): (r: seq<HighlightRange>)
  {
    if |ranges| == 0 then []
    else
      var c := Clip(ranges[|ranges| - 1], n);
      Clipped(ranges[..|ranges| - 1], n) + (if c.start < c.end then [c] else [])
  }

  /** Clipping keeps exactly the covered positions below `n`, in non-empty ranges. */
  lemma {:induction false} ClippedSpec(ranges: seq<HighlightRange>, n: nat)
    ensures Diff.AllNonEmpty(Clipped(ranges, n))
    ensures forall p :: Diff.Covers(Clipped(ranges, n), p) <==> p < n && Diff.Covers(ranges, p)
  {
    if |ranges| > 0 {
      var init, last := ranges[..|ranges| - 1], ranges[|ranges| - 1];
      var c := Clip(last, n);
      var tail := if c.start < c.end then [c] else [];
      ClippedSpec(init, n);
      assert ranges == init + [last];
      forall p ensures Diff.Covers(Clipped(ranges, n), p) <==> p < n && Diff.Covers(ranges, p) {
        Diff.CoversAppend(Clipped(init, n), tail, p);
        Diff.CoversAppend(init, [last], p);
        Diff.CoversSingle(last, p);
        if c.start < c.end {
          Diff.CoversSingle(c, p);
        }
      }
    }
  }

  /**
   * `clip_and_merge_ranges`: nothing for no ranges or no visible text;
   * otherwise the clipped ranges, sorted and merged by the same loop as
   * `merge_highlight_ranges`.
   */
  method ClipAndMergeRanges(ranges: seq<HighlightRange>, visibleLen: nat) returns (merged: seq<HighlightRange>)
    ensures |ranges| == 0 || visibleLen == 0 ==> merged == []
    ensures Diff.Gapped(merged) && Diff.AllNonEmpty(merged)
    ensures forall k :: 0 <= k < |merged| ==> merged[k].end <= visibleLen
    ensures forall p :: Diff.Covers(merged, p) <==> p < visibleLen && Diff.Covers(ranges, p)
  {
    if |ranges| == 0 || visibleLen == 0 {
      return [];
    }
    var clipped := Clipped(ranges, visibleLen);
    ClippedSpec(ranges, visibleLen);
    if |clipped| == 0 {
      return clipped;
    }
    merged := Diff.MergeHighlightRanges(clipped);
    forall k | 0 <= k < |merged| ensures merged[k].end <= visibleLen {
      assert merged[k].start <= merged[k].end - 1 < merged[k].end;
      assert Diff.Covers(merged, merged[k].end - 1);
    }
  }

  // ---------------------------------------------------------------------
  // Does the highlighting cover the whole visible text?
  // ---------------------------------------------------------------------

  predicate SortedByStart(ranges: seq<HighlightRange>)
  {
    forall i, j :: 0 <= i < j < |ranges| ==> ranges[i].start <= ranges[j].start
  }

  /** Merged ranges are in particular sorted by start. */
  lemma {:induction false} GappedSorted(ranges: seq<HighlightRange>)
    requires Diff.Gapped(ranges)
    ensures SortedByStart(ranges)
    decreases |ranges|
  {
    if |ranges| > 1 {
      GappedSorted(ranges[1..]);
      forall i, j | 0 <= i < j < |ranges| ensures ranges[i].start <= ranges[j].start {
        if i > 0 {
          assert ranges[1..][i - 1] == ranges[i] && ranges[1..][j - 1] == ranges[j];
        } else if j > 1 {
          assert ranges[1..][0] == ranges[1] && ranges[1..][j - 1] == ranges[j];
        }
      }
    }
  }

  /**
   * `ranges_cover_visible_content`: walks the ranges keeping the end of the
   * covered prefix. A `true` answer means every visible position is
   * highlighted; on ranges sorted by start the converse holds as well.
   */
  method RangesCoverVisibleContent(ranges: seq<HighlightRange>, visibleLen: nat) returns (covered: bool)
    ensures visibleLen == 0 ==> !covered
    ensures covered ==> forall p :: 0 <= p < visibleLen ==> Diff.Covers(ranges, p)
    ensures SortedByStart(ranges) && visibleLen > 0 && (forall p :: 0 <= p < visibleLen ==> Diff.Covers(ranges, p)) ==>
      covered
  {
    if visibleLen == 0 {
      return false;
    }
    var coveredUntil: nat := 0;
    var i := 0;
    while i < |ranges|
      invariant 0 <= i <= |ranges| && coveredUntil < visibleLen
      invariant forall p :: 0 <= p < coveredUntil ==> Diff.Covers(ranges[..i], p)
      invariant forall k :: 0 <= k < i ==> ranges[k].end <= coveredUntil
    {
      var range := ranges[i];
      if range.start > coveredUntil {
        UncoveredGap(ranges, i, coveredUntil);
        return false;
      }
      var walked := ranges[..i + 1];
      assert walked == ranges[..i] + [range];
      forall p | 0 <= p < Diff.Max(coveredUntil, range.end) ensures Diff.Covers(walked, p) {
        Diff.CoversAppend(ranges[..i], [range], p);
        Diff.CoversSingle(range, p);
      }
      coveredUntil := Diff.Max(coveredUntil, range.end);
      if coveredUntil >= visibleLen {
        CoversPrefix(ranges, i + 1, visibleLen);
        return true;
      }
      i := i + 1;
    }
    assert ranges[..i] == ranges;
    UncoveredGap(ranges, i, coveredUntil);
    covered := false;
  }

  /** Positions covered by a prefix are covered by the whole list. */
  lemma CoversPrefix(ranges: seq<HighlightRange>, i: nat, n: nat)
    requires i <= |ranges|
    requires forall p :: 0 <= p < n ==> Diff.Covers(ranges[..i], p)
    ensures forall p :: 0 <= p < n ==> Diff.Covers(ranges, p)
  {
    forall p | 0 <= p < n ensures Diff.Covers(ranges, p) {
      assert Diff.Covers(ranges[..i], p);
      var k :| 0 <= k < |ranges[..i]| && ranges[..i][k].start <= p < ranges[..i][k].end;
      assert ranges[k] == ranges[..i][k];
    }
  }

  /**
   * Where the walk stops without covering everything, the position it
   * reached is a hole: the ranges walked end at or before it and, when the
   * ranges are sorted by start, the rest begin after it.
   */
  lemma UncoveredGap(ranges: seq<HighlightRange>, i: nat, at: nat)
    requires i <= |ranges|
    requires forall k :: 0 <= k < i ==> ranges[k].end <= at
    requires i < |ranges| ==> ranges[i].start > at
    ensures SortedByStart(ranges) ==> !Diff.Covers(ranges, at)
  {
    if SortedByStart(ranges) {
      forall k | 0 <= k < |ranges| ensures !(ranges[k].start <= at < ranges[k].end) {
        if k >= i {
          assert ranges[i].start <= ranges[k].start;
        }
      }
    }
  }

  // ---------------------------------------------------------------------
  // The highlight mask
  // ---------------------------------------------------------------------

  /**
   * `mask_highlight_ranges`: a flag per column, set exactly where some
   * range (clipped to the width) lies.
   */
  method MaskHighlightRanges(ranges: seq<HighlightRange>, width: nat) returns (mask: array<bool>)
    ensures fresh(mask) && mask.Length == width
    ensures forall i :: 0 <= i < width ==> (mask[i] <==> Diff.Covers(ranges, i))
  {
    mask := new bool[width](_ => false);
    for k := 0 to |ranges|
      invariant forall i :: 0 <= i < width ==> (mask[i] <==> Diff.Covers(ranges[..k], i))
    {
      var start := Min(ranges[k].start, width);
      var end := Min(ranges[k].end, width);
      if start < end {
        for i := start to end
          invariant forall j :: 0 <= j < width ==> (mask[j] <==> Diff.Covers(ranges[..k], j) || start <= j < i)
        {
          mask[i] := true;
        }
      }
      forall j | 0 <= j < width ensures Diff.Covers(ranges[..k + 1], j) <==> Diff.Covers(ranges[..k], j) || start <= j < end {
        assert ranges[..k + 1] == ranges[..k] + [ranges[k]];
        Diff.CoversAppend(ranges[..k], [ranges[k]], j);
        Diff.CoversSingle(ranges[k], j);
      }
    }
    assert ranges[..|ranges|] == ranges;
  }

  // ---------------------------------------------------------------------
  // Styled runs of characters
  // ---------------------------------------------------------------------

  /** A run of characters drawn in one style. */
  datatype Span<S> = Span(text: string, style: S)

  /**
   * Where the styles of a line come from: the syntax colour of each column
   * (if any), the base and highlight styles, the highlight mask (if any),
   * and the "override the foreground" operation.
   */
  datatype StyleSource<!S, !C> = StyleSource(syntaxFg: Option<seq<Option<C>>>, base: S, highlight: S,
                                             mask: Option<seq<bool>>, withFg: (S, C) -> S)

  /**
   * The style of the character at `i`: the highlight style where the mask
   * is set, the base style elsewhere, with the syntax colour of that column
   * (if any) as foreground.
   */
  function CellStyle<S, C>(src: StyleSource<S, C>, i: nat): S
  {
    var style := if src.mask.Some? && i < |src.mask.value| && src.mask.value[i] then src.highlight else src.base;
    if src.syntaxFg.Some? && i < |src.syntaxFg.value| && src.syntaxFg.value[i].Some? then
      src.withFg(style, src.syntaxFg.value[i].value)
    else style
  }

  /** The styles of the first `n` characters. */
  function CellStyles<S, C>(src: StyleSource<S, C>, n: nat): (r: seq<S>)
    ensures |r| == n
  {
    if n == 0 then [] else CellStyles(src, n - 1) + [CellStyle(src, n - 1)]
  }

  /** The text of a list of runs, joined. */
  function Texts<S>(spans: seq<Span<S>>): string
  {
    if |spans| == 0 then [] else Texts(spans[..|spans| - 1]) + spans[|spans| - 1].text
  }

  function Repeat<T>(x: T, n: nat): (r: seq<T>)
    ensures |r| == n && forall i :: 0 <= i < n ==> r[i] == x
  {
    if n == 0 then [] else Repeat(x, n - 1) + [x]
  }

  /** The style of every character of a list of runs, in order. */
  function Styles<S>(spans: seq<Span<S>>): seq<S>
  {
    if |spans| == 0 then [] else Styles(spans[..|spans| - 1]) + Repeat(spans[|spans| - 1].style, |spans[|spans| - 1].text|)
  }

  /** Every run holds text and neighbouring runs differ in style. */
  predicate Maximal<S(==)>(spans: seq<Span<S>>)
  {
    (forall k :: 0 <= k < |spans| ==> |spans[k].text| > 0) &&
    (forall k :: 0 <= k < |spans| - 1 ==> spans[k].style != spans[k + 1].style)
  }

  lemma SpansSnoc<S>(spans: seq<Span<S>>, s: Span<S>)
    ensures Texts(spans + [s]) == Texts(spans) + s.text
    ensures Styles(spans + [s]) == Styles(spans) + Repeat(s.style, |s.text|)
  {
    assert (spans + [s])[..|spans|] == spans;
  }

  /**
   * The state of the run-splitting loop after `index` characters: the
   * closed runs and the open run (`buffer` in `style`) spell the characters
   * read so far and give each its style, and the open run differs in style
   * from the last closed one.
   */
  ghost predicate Progress<S, C>(chars: seq<char>, src: StyleSource<S, C>, spans: seq<Span<S>>,
                                     buffer: string, style: S, index: nat)
  {
    0 < index <= |chars| && |buffer| > 0 &&
    Texts(spans) + buffer == chars[..index] &&
    Styles(spans) + Repeat(style, |buffer|) == CellStyles(src, index) &&
    Maximal(spans) &&
    (|spans| > 0 ==> spans[|spans| - 1].style != style)
  }

  /** A character in the open run's style extends it. */
  lemma ExtendRun<S, C>(chars: seq<char>, src: StyleSource<S, C>, spans: seq<Span<S>>,
                            buffer: string, style: S, index: nat)
    requires Progress(chars, src, spans, buffer, style, index)
    requires index < |chars| && CellStyle(src, index) == style
    ensures Progress(chars, src, spans, buffer + [chars[index]], style, index + 1)
  {
    assert chars[..index + 1] == chars[..index] + [chars[index]];
    assert Repeat(style, |buffer|) + [style] == Repeat(style, |buffer| + 1);
  }

  /** A character in another style closes the open run and opens a new one. */
  lemma StartRun<S, C>(chars: seq<char>, src: StyleSource<S, C>, spans: seq<Span<S>>,
                           buffer: string, style: S, index: nat)
    requires Progress(chars, src, spans, buffer, style, index)
    requires index < |chars| && CellStyle(src, index) != style
    ensures Progress(chars, src, spans + [Span(buffer, style)], [chars[index]], CellStyle(src, index), index + 1)
  {
    var s := Span(buffer, style);
    SpansSnoc(spans, s);
    assert chars[..index + 1] == chars[..index] + [chars[index]];
    assert Repeat(CellStyle(src, index), 1) == [CellStyle(src, index)];
    var spans' := spans + [s];
    assert forall k :: 0 <= k < |spans| ==> spans'[k] == spans[k];
  }

  /** Once every character is read, closing the open run gives the answer. */
  lemma FinishRuns<S, C>(chars: seq<char>, src: StyleSource<S, C>, spans: seq<Span<S>>,
                             buffer: string, style: S)
    requires Progress(chars, src, spans, buffer, style, |chars|)
    ensures Texts(spans + [Span(buffer, style)]) == chars
    ensures Styles(spans + [Span(buffer, style)]) == CellStyles(src, |chars|)
    ensures Maximal(spans + [Span(buffer, style)])
  {
    var s := Span(buffer, style);
    SpansSnoc(spans, s);
    assert chars[..|chars|] == chars;
    var spans' := spans + [s];
    assert forall k :: 0 <= k < |spans| ==> spans'[k] == spans[k];
  }

  /**
   * `render_syntax_cells`: the characters split into maximal runs of equal
   * style. The runs spell the characters, give each character its own
   * style, hold text, and no two neighbours share a style.
   */
  method RenderSyntaxCells<S(==), C>(chars: seq<char>, src: StyleSource<S, C>) returns (spans: seq<Span<S>>)
    ensures |chars| == 0 ==> spans == []
    ensures Texts(spans) == chars
    ensures Styles(spans) == CellStyles(src, |chars|)
    ensures Maximal(spans)
  {
    spans := [];
    if |chars| == 0 {
      return;
    }
    // The first character always opens a run.
    var buffer: string := [chars[0]];
    var currentStyle := CellStyle(src, 0);
    assert chars[..1] == [chars[0]];
    assert Repeat(currentStyle, 1) == [currentStyle];
    var index := 1;
    while index < |chars|
      invariant Progress(chars, src, spans, buffer, currentStyle, index)
      decreases |chars| - index
    {
      var style := CellStyle(src, index);
      if style == currentStyle {
        ExtendRun(chars, src, spans, buffer, currentStyle, index);
        buffer := buffer + [chars[index]];
      } else {
        StartRun(chars, src, spans, buffer, currentStyle, index);
        spans := spans + [Span(buffer, currentStyle)];
        buffer := [chars[index]];
        currentStyle := style;
      }
      index := index + 1;
    }
    FinishRuns(chars, src, spans, buffer, currentStyle);
    spans := spans + [Span(buffer, currentStyle)];
  }

  // ---------------------------------------------------------------------
  // Rows and markers
  // ---------------------------------------------------------------------

  /**
   * `pending_comment_matches_row`: the row has a line on the comment's side
   * inside the comment's range (the caller passes the comments of the
   * file the row belongs to).
   */
  predicate PendingCommentMatchesRow(c: PendingDraft, row: DiffRow)
  {
    match RowLineForSide(row, c.side)
    case None => false
    case Some(line) =>
      var start := Min(c.startLine.UnwrapOr(c.line), c.line);
      var end := Max(c.startLine.UnwrapOr(c.line), c.line);
      start <= line <= end
  }

  /** The pane's test agrees with the staging engine's: it is coverage on the comment's own path. */
  lemma MatchesRowIsCovers(c: PendingDraft, row: DiffRow)
    ensures PendingCommentMatchesRow(c, row) <==> Covers(c, c.path, row)
    ensures PendingCommentMatchesRow(c, row) ==>
      Bounds(c.line, c.startLine).0 <= RowLineForSide(row, c.side).value <= Bounds(c.line, c.startLine).1
  {
  }

  /** `"╱".repeat(width)`: the filler of an alignment gap in this pane. */
  function HatchedFiller(width: nat): (r: string)
    ensures |r| == width && forall i :: 0 <= i < width ==> r[i] == '╱'
  {
    Repeat('╱', width)
  }

  /** The gutter marker of a row: the cursor, a staged comment, the selection, or nothing. */
  datatype Marker = CursorMarker | PendingMarker | RangeMarker | BlankMarker

  /** The part of a drawn row the model keeps: which row, which marker, whether it is selected. */
  datatype RowLine = RowLine(rowIndex: nat, marker: Marker, inSelectedRange: bool)

  /** The widths of the two text columns: the gutter (2) and the separator " │ " (5 bytes) are taken off first. */
  function ColumnWidths(width: nat): (r: (nat, nat))
    ensures var available := if Max(width, 1) >= 7 then Max(width, 1) - 7 else 0;
      r.0 + r.1 == available && r.0 <= r.1 <= r.0 + 1
  {
    var w := Max(width, 1);
    var available := if w >= 7 then w - 7 else 0;
    (available / 2, available - available / 2)
  }

  function InRange(rowIndex: nat, selectedRange: Option<(nat, nat)>): bool
  {
    selectedRange.Some? && selectedRange.value.0 <= rowIndex <= selectedRange.value.1
  }

  predicate HasPending(pending: seq<PendingDraft>, row: DiffRow)
  {
    exists k :: 0 <= k < |pending| && PendingCommentMatchesRow(pending[k], row)
  }

  function MarkerFor(rowIndex: nat, selectedLine: nat, inRange: bool, hasPending: bool): Marker
  {
    if rowIndex == selectedLine then CursorMarker
    else if hasPending then PendingMarker
    else if inRange then RangeMarker
    else BlankMarker
  }

  /** The rows from `from` on, at most `limit` of them, each with its marker. */
  function RowLines(rows: seq<DiffRow>, from: nat, limit: nat, selectedLine: nat, selectedRange: Option<(nat, nat)>,
                    pending: seq<PendingDraft>): seq<RowLine>
    decreases limit
  {
    if limit == 0 || from >= |rows| then []
    else
      var inRange := InRange(from, selectedRange);
      [RowLine(from, MarkerFor(from, selectedLine, inRange, HasPending(pending, rows[from])), inRange)] +
      RowLines(rows, from + 1, limit - 1, selectedLine, selectedRange, pending)
  }

  /**
   * The windowing and marker choice of `render_rows`: one line for each
   * row in `[rowOffset, rowOffset + rowLimit)` that exists, in order; the
   * marker is the cursor's on the cursor row, else a staged comment's, else
   * the selection's, else blank.
   */
  lemma {:induction false} RowLinesSpec(rows: seq<DiffRow>, from: nat, limit: nat, selectedLine: nat,
                                        selectedRange: Option<(nat, nat)>, pending: seq<PendingDraft>)
    ensures var r := RowLines(rows, from, limit, selectedLine, selectedRange, pending);
      |r| == Min(limit, if from <= |rows| then |rows| - from else 0) &&
      forall k :: 0 <= k < |r| ==>
        var i := from + k;
        r[k].rowIndex == i && i < |rows| &&
        r[k].inSelectedRange == InRange(i, selectedRange) &&
        (r[k].marker == CursorMarker <==> i == selectedLine) &&
        (r[k].marker == PendingMarker <==> i != selectedLine && HasPending(pending, rows[i])) &&
        (r[k].marker == RangeMarker <==> i != selectedLine && !HasPending(pending, rows[i]) && InRange(i, selectedRange)) &&
        (r[k].marker == BlankMarker <==> i != selectedLine && !HasPending(pending, rows[i]) && !InRange(i, selectedRange))
    decreases limit
  {
    if limit > 0 && from < |rows| {
      RowLinesSpec(rows, from + 1, limit - 1, selectedLine, selectedRange, pending);
      var r := RowLines(rows, from, limit, selectedLine, selectedRange, pending);
      var rest := RowLines(rows, from + 1, limit - 1, selectedLine, selectedRange, pending);
      forall k | 1 <= k < |r| ensures r[k] == rest[k - 1] {
      }
    }
  }
}
