/**
 * Pending review comments staged against the diff, and the pure helpers of
 * the review screen's diff cursor: which rows can carry a comment, which
 * hunk a row belongs to, whether a staged comment still fits the current
 * diff, and where the cursor may move while a range is being selected.
 *
 * A comment is anchored to a path, a side, an end line and an optional
 * start line; line numbers are the 1-based numbers the diff rows carry.
 */
module PendingComments {
  import opened Wrappers
  import opened Text
  import opened Seqs
  import opened Domain
  import ThreadNodes

  /** `PendingReviewCommentSide`. */
  datatype Side = Left | Right

  /** `PendingReviewCommentDraft`: ids and line numbers are `u64` in the Rust code. */
  datatype PendingDraft = PendingDraft(id: nat, path: string, side: Side, line: nat, startLine: Option<nat>, body: string)

  function Min(a: nat, b: nat): nat
  {
    if a <= b then a else b
  }

  function Max(a: nat, b: nat): nat
  {
    if a <= b then b else a
  }

  /** `u64::saturating_add(1)`. */
  function SaturatingIncrement(n: nat): (r: nat)
    ensures n < U64_MAX ==> r == n + 1
    ensures n >= U64_MAX ==> r == U64_MAX
  {
    if n >= U64_MAX then U64_MAX else n + 1
  }

  /** `row_line_for_side`: the row's line number on that side, if it has one. */
  function RowLineForSide(row: DiffRow, side: Side): Option<nat>
  {
    match side
    case Left => row.leftLine
    case Right => row.rightLine
  }

  /**
   * `pending_comment_bounds`: the inclusive line range a comment covers,
   * whichever order its two ends were given in.
   */
  function Bounds(line: nat, startLine: Option<nat>): (b: (nat, nat))
    ensures b.0 <= line <= b.1
    ensures startLine.None? ==> b == (line, line)
    ensures startLine.Some? ==> b.0 <= startLine.value <= b.1 && {b.0, b.1} == {line, startLine.value}
  {
    var s := startLine.UnwrapOr(line);
    (Min(s, line), Max(s, line))
  }

  /** `pending_comment_contains_line`. */
  predicate ContainsLine(c: PendingDraft, line: nat)
  {
    Bounds(c.line, c.startLine).0 <= line <= Bounds(c.line, c.startLine).1
  }

  /** `is_commentable_diff_row`: a changed row that has a line number on that side. */
  predicate IsCommentable(row: DiffRow, side: Side)
  {
    row.kind != Context && RowLineForSide(row, side).Some?
  }

  datatype Direction = Up | Down

  /**
   * `next_commentable_row`: the neighbouring row in the given direction,
   * when it exists and can carry a comment on that side.
   */
  function NextCommentableRow(rows: seq<DiffRow>, from: nat, side: Side, dir: Direction): (r: Option<nat>)
    ensures r.Some? ==> r.value < |rows| && IsCommentable(rows[r.value], side)
    ensures r.Some? && dir == Down ==> r.value == from + 1
    ensures r.Some? && dir == Up ==> r.value + 1 == from
    ensures r.None? && dir == Down ==> from + 1 >= |rows| || !IsCommentable(rows[from + 1], side)
    ensures r.None? && dir == Up ==> from == 0 || from - 1 >= |rows| || !IsCommentable(rows[from - 1], side)
  {
    if |rows| == 0 then None
    else
      var next := if dir == Down then from + 1 else if from == 0 then 0 else from - 1;
      if next >= |rows| || (dir == Up && from == 0) then None
      else if IsCommentable(rows[next], side) then Some(next)
      else None
  }

  // ---------------------------------------------------------------------
  // Hunks
  // ---------------------------------------------------------------------

  /**
   * `partition_point(|start| start <= row)`: the length of the longest
   * prefix whose starts are all at most `row` (on sorted starts, the number
   * of starts at most `row`).
   */
  function PartitionPoint(starts: seq<nat>, row: nat): nat
  {
    if |starts| == 0 || starts[0] > row then 0 else 1 + PartitionPoint(starts[1..], row)
  }

  lemma {:induction false} PartitionPointSpec(starts: seq<nat>, row: nat)
    ensures PartitionPoint(starts, row) <= |starts|
    ensures forall j :: 0 <= j < PartitionPoint(starts, row) ==> starts[j] <= row
    ensures PartitionPoint(starts, row) < |starts| ==> starts[PartitionPoint(starts, row)] > row
  {
    if |starts| > 0 && starts[0] <= row {
      PartitionPointSpec(starts[1..], row);
    }
  }

  /** `hunk_index_for_row`. */
  function HunkIndexForRow(file: DiffFile, row: nat): Option<nat>
  {
    if |file.hunkStarts| == 0 then None
    else if row < file.hunkStarts[0] then None
    else
      var p := PartitionPoint(file.hunkStarts, row);
      if p == 0 then None else Some(p - 1)
  }

  predicate Increasing(starts: seq<nat>)
  {
    forall i, j :: 0 <= i < j < |starts| ==> starts[i] < starts[j]
  }

  /**
   * No hunk when the file has none or the row lies before the first one;
   * otherwise the hunk whose start is at most the row while the next start
   * (if any) is past it; on increasing starts, that is the last start at
   * most the row.
   */
  lemma HunkIndexForRowSpec(file: DiffFile, row: nat)
    ensures HunkIndexForRow(file, row).None? <==> |file.hunkStarts| == 0 || row < file.hunkStarts[0]
    ensures HunkIndexForRow(file, row).Some? ==>
      var h := HunkIndexForRow(file, row).value;
      h < |file.hunkStarts| && file.hunkStarts[h] <= row &&
      (h + 1 < |file.hunkStarts| ==> file.hunkStarts[h + 1] > row)
    ensures HunkIndexForRow(file, row).Some? && Increasing(file.hunkStarts) ==>
      var h := HunkIndexForRow(file, row).value;
      forall j :: 0 <= j < |file.hunkStarts| ==> (file.hunkStarts[j] <= row <==> j <= h)
  {
    PartitionPointSpec(file.hunkStarts, row);
  }

  // ---------------------------------------------------------------------
  // Does a staged comment still fit the diff?
  // ---------------------------------------------------------------------

  /** `diff.files.iter().position(|file| file.path == path)`. */
  function FileIndexOf(files: seq<DiffFile>, path: string): (r: Option<nat>)
    ensures r.Some? ==> r.value < |files| && files[r.value].path == path
    ensures r.Some? ==> forall j :: 0 <= j < r.value ==> files[j].path != path
    ensures r.None? ==> forall j :: 0 <= j < |files| ==> files[j].path != path
  {
    if |files| == 0 then None
    else if files[0].path == path then Some(0)
    else match FileIndexOf(files[1..], path)
      case None => None
      case Some(k) => Some(k + 1)
  }

  /** Whether a row is counted for a comment: commentable on its side, with a line in `[start, end]`. */
  predicate CountsFor(row: DiffRow, side: Side, start: nat, end: nat)
  {
    IsCommentable(row, side) && start <= RowLineForSide(row, side).value <= end
  }

  /** How many rows count for a comment spanning `[start, end]`. */
  function CountInRange(rows: seq<DiffRow>, side: Side, start: nat, end: nat): nat
  {
    if |rows| == 0 then 0
    else CountInRange(rows[..|rows| - 1], side, start, end) + (if CountsFor(rows[|rows| - 1], side, start, end) then 1 else 0)
  }

  /** `end.saturating_sub(start).saturating_add(1)` on `u64`. */
  function Required(start: nat, end: nat): nat
  {
    var span := if end >= start then end - start else 0;
    SaturatingIncrement(span)
  }

  /**
   * `pending_comment_matches_current_diff`: the comment's file is in the
   * diff and at least as many counted rows as the range has lines.
   */
  predicate MatchesCurrentDiff(diff: DiffData, c: PendingDraft)
  {
    match FileIndexOf(diff.files, c.path)
    case None => false
    case Some(f) =>
      var b := Bounds(c.line, c.startLine);
      CountInRange(diff.files[f].rows, c.side, b.0, b.1) >= Required(b.0, b.1)
  }

  /** Counting a longer prefix never gives fewer rows. */
  lemma {:induction false} CountInRangeMonotone(rows: seq<DiffRow>, i: nat, side: Side, start: nat, end: nat)
    requires i <= |rows|
    ensures CountInRange(rows[..i], side, start, end) <= CountInRange(rows, side, start, end)
    decreases |rows|
  {
    if i < |rows| {
      var init := rows[..|rows| - 1];
      assert init[..i] == rows[..i];
      CountInRangeMonotone(init, i, side, start, end);
    } else {
      assert rows[..i] == rows;
    }
  }

  /**
   * The loop of `pending_comment_matches_current_diff`: count the rows that
   * count for the comment and answer true as soon as enough are seen.
   */
  method PendingCommentMatchesCurrentDiff(diff: DiffData, c: PendingDraft) returns (r: bool)
    ensures r == MatchesCurrentDiff(diff, c)
  {
    var f := FileIndexOf(diff.files, c.path);
    if f.None? {
      return false;
    }
    var rows := diff.files[f.value].rows;
    var b := Bounds(c.line, c.startLine);
    var required := Required(b.0, b.1);
    var matched := 0;
    var i := 0;
    while i < |rows|
      invariant 0 <= i <= |rows|
      invariant matched == CountInRange(rows[..i], c.side, b.0, b.1) && matched < required
    {
      assert rows[..i + 1][..i] == rows[..i];
      if CountsFor(rows[i], c.side, b.0, b.1) {
        matched := matched + 1;
        if matched >= required {
          CountInRangeMonotone(rows, i + 1, c.side, b.0, b.1);
          return true;
        }
      }
      i := i + 1;
    }
    assert rows[..i] == rows;
    return false;
  }

  /** The distinct lines in `[start, end]` carried by counted rows. */
  function CoveredLines(rows: seq<DiffRow>, side: Side, start: nat, end: nat): set<nat>
  {
    set i | 0 <= i < |rows| && CountsFor(rows[i], side, start, end) :: RowLineForSide(rows[i], side).value
  }

  /** Each counted row adds at most one new line, so there are at least as many counted rows as covered lines. */
  lemma {:induction false} CountAtLeastCovered(rows: seq<DiffRow>, side: Side, start: nat, end: nat)
    ensures CountInRange(rows, side, start, end) >= |CoveredLines(rows, side, start, end)|
    decreases |rows|
  {
    if |rows| > 0 {
      var init := rows[..|rows| - 1];
      var last := rows[|rows| - 1];
      CountAtLeastCovered(init, side, start, end);
      var before := CoveredLines(init, side, start, end);
      var after := CoveredLines(rows, side, start, end);
      if CountsFor(last, side, start, end) {
        var l := RowLineForSide(last, side).value;
        assert after <= before + {l} by {
          forall x | x in after ensures x in before + {l} {
            var i :| 0 <= i < |rows| && CountsFor(rows[i], side, start, end) && RowLineForSide(rows[i], side).value == x;
            if i < |rows| - 1 {
              assert rows[i] == init[i];
            }
          }
        }
        assert |before + {l}| <= |before| + 1;
        SetSizeMonotone(after, before + {l});
      } else {
        assert after <= before by {
          forall x | x in after ensures x in before {
            var i :| 0 <= i < |rows| && CountsFor(rows[i], side, start, end) && RowLineForSide(rows[i], side).value == x;
            assert i < |rows| - 1 && rows[i] == init[i];
          }
        }
        SetSizeMonotone(after, before);
      }
    }
  }

  lemma SetSizeMonotone(a: set<nat>, b: set<nat>)
    requires a <= b
    ensures |a| <= |b|
  {
    assert b == a + (b - a);
  }

  /** The lines from `start` to `end`. */
  function LineRange(start: nat, end: nat): set<nat>
    decreases end
  {
    if end < start then {} else if end == start then {start} else LineRange(start, end - 1) + {end}
  }

  lemma {:induction false} LineRangeSpec(start: nat, end: nat)
    requires start <= end
    ensures |LineRange(start, end)| == end - start + 1
    ensures forall l :: l in LineRange(start, end) <==> start <= l <= end
    decreases end
  {
    if start < end {
      LineRangeSpec(start, end - 1);
    }
  }

  /**
   * A comment whose every line is still carried by some commentable row of
   * its file on its side matches the current diff (so is not outdated).
   */
  lemma FullyCoveredMatches(diff: DiffData, c: PendingDraft)
    requires FileIndexOf(diff.files, c.path).Some?
    requires forall l :: Bounds(c.line, c.startLine).0 <= l <= Bounds(c.line, c.startLine).1 ==>
      exists i :: 0 <= i < |diff.files[FileIndexOf(diff.files, c.path).value].rows| &&
        var row := diff.files[FileIndexOf(diff.files, c.path).value].rows[i];
        IsCommentable(row, c.side) && RowLineForSide(row, c.side) == Some(l)
    ensures MatchesCurrentDiff(diff, c)
  {
    var rows := diff.files[FileIndexOf(diff.files, c.path).value].rows;
    var b := Bounds(c.line, c.startLine);
    CountAtLeastCovered(rows, c.side, b.0, b.1);
    LineRangeSpec(b.0, b.1);
    assert LineRange(b.0, b.1) <= CoveredLines(rows, c.side, b.0, b.1) by {
      forall l | l in LineRange(b.0, b.1) ensures l in CoveredLines(rows, c.side, b.0, b.1) {
        assert b.0 <= l <= b.1;
        assert exists i :: 0 <= i < |rows| && IsCommentable(rows[i], c.side) && RowLineForSide(rows[i], c.side) == Some(l);
        var i :| 0 <= i < |rows| && IsCommentable(rows[i], c.side) && RowLineForSide(rows[i], c.side) == Some(l);
        assert CountsFor(rows[i], c.side, b.0, b.1);
      }
    }
    SetSizeMonotone(LineRange(b.0, b.1), CoveredLines(rows, c.side, b.0, b.1));
  }

  /** A comment whose path names no file of the diff never matches it. */
  lemma AbsentFileNeverMatches(diff: DiffData, c: PendingDraft)
    requires forall j :: 0 <= j < |diff.files| ==> diff.files[j].path != c.path
    ensures !MatchesCurrentDiff(diff, c)
  {
  }

  /**
   * `pending_comment_row_index`: the first row with a line on the
   * comment's side inside its range (commentable or not).
   */
  function PendingRowIndex(file: DiffFile, c: PendingDraft): (r: Option<nat>)
  {
    FirstRowIn(file.rows, c.side, Bounds(c.line, c.startLine).0, Bounds(c.line, c.startLine).1)
  }

  predicate LineIn(row: DiffRow, side: Side, start: nat, end: nat)
  {
    RowLineForSide(row, side).Some? && start <= RowLineForSide(row, side).value <= end
  }

  function FirstRowIn(rows: seq<DiffRow>, side: Side, start: nat, end: nat): (r: Option<nat>)
    ensures r.Some? ==> r.value < |rows| && LineIn(rows[r.value], side, start, end)
    ensures r.Some? ==> forall j :: 0 <= j < r.value ==> !LineIn(rows[j], side, start, end)
    ensures r.None? ==> forall j :: 0 <= j < |rows| ==> !LineIn(rows[j], side, start, end)
  {
    if |rows| == 0 then None
    else if LineIn(rows[0], side, start, end) then Some(0)
    else match FirstRowIn(rows[1..], side, start, end)
      case None => None
      case Some(k) => Some(k + 1)
  }

  // ---------------------------------------------------------------------
  // The diff cursor
  // ---------------------------------------------------------------------

  /** What the cursor helpers read of the review screen: the diff, the selected file and row, the range anchor. */
  datatype Cursor = Cursor(diff: Option<DiffData>, file: nat, line: nat, anchor: Option<nat>)

  /** `selected_diff_file`. */
  function SelectedFile(cur: Cursor): Option<DiffFile>
  {
    if cur.diff.Some? && cur.file < |cur.diff.value.files| then Some(cur.diff.value.files[cur.file]) else None
  }

  /** `file.rows.get(selected_diff_line)` on the selected file. */
  function SelectedRow(cur: Cursor): Option<DiffRow>
  {
    match SelectedFile(cur)
    case None => None
    case Some(file) => if cur.line < |file.rows| then Some(file.rows[cur.line]) else None
  }

  /** `selected_diff_range`: the anchor and the cursor, in order. */
  function SelectedRange(cur: Cursor): (r: Option<(nat, nat)>)
    ensures r.None? <==> cur.anchor.None?
    ensures r.Some? ==> r.value.0 <= r.value.1 && {r.value.0, r.value.1} == {cur.anchor.value, cur.line}
  {
    match cur.anchor
    case None => None
    case Some(a) => Some((Min(a, cur.line), Max(a, cur.line)))
  }

  /**
   * `selected_diff_comment_side`: no side on a context row or past the end;
   * otherwise the right side when the row has a right line, else the left.
   */
  function CommentSide(cur: Cursor): (r: Option<Side>)
    ensures r.Some? ==> SelectedRow(cur).Some? && IsCommentable(SelectedRow(cur).value, r.value)
    ensures r == Some(Left) ==> SelectedRow(cur).value.rightLine.None?
    ensures r.None? && SelectedRow(cur).Some? && SelectedRow(cur).value.kind != Context ==>
      !IsCommentable(SelectedRow(cur).value, Left) && !IsCommentable(SelectedRow(cur).value, Right)
  {
    match SelectedRow(cur)
    case None => None
    case Some(row) =>
      if row.kind == Context then None
      else if row.rightLine.Some? then Some(Right)
      else if row.leftLine.Some? then Some(Left)
      else None
  }

  /** The selected row range (or the cursor row alone), both ends clamped to the last row. */
  function ClampedRange(cur: Cursor, n: nat): (r: (nat, nat))
    requires n > 0
    ensures r.0 <= r.1 < n
  {
    var range := SelectedRange(cur).UnwrapOr((cur.line, cur.line));
    (Min(range.0, n - 1), Min(range.1, n - 1))
  }

  /** `selection_is_commentable_for_side`: every selected row can carry a comment on that side. */
  predicate SelectionCommentable(cur: Cursor, side: Side)
  {
    match SelectedFile(cur)
    case None => false
    case Some(file) =>
      |file.rows| > 0 &&
      var range := ClampedRange(cur, |file.rows|);
      forall k :: range.0 <= k <= range.1 ==> IsCommentable(file.rows[k], side)
  }

  /** The line numbers the rows carry on one side, in row order. */
  function LinesOf(rows: seq<DiffRow>, side: Side): seq<nat>
  {
    if |rows| == 0 then []
    else
      var last := rows[|rows| - 1];
      LinesOf(rows[..|rows| - 1], side) + (if RowLineForSide(last, side).Some? then [RowLineForSide(last, side).value] else [])
  }

  lemma {:induction false} LinesOfSpec(rows: seq<DiffRow>, side: Side)
    ensures forall l :: l in LinesOf(rows, side) <==> exists k :: 0 <= k < |rows| && RowLineForSide(rows[k], side) == Some(l)
  {
    if |rows| > 0 {
      var init := rows[..|rows| - 1];
      LinesOfSpec(init, side);
      forall l | (exists k :: 0 <= k < |rows| && RowLineForSide(rows[k], side) == Some(l))
        ensures l in LinesOf(rows, side)
      {
        var k :| 0 <= k < |rows| && RowLineForSide(rows[k], side) == Some(l);
        if k < |rows| - 1 {
          assert init[k] == rows[k];
        }
      }
      forall l | l in LinesOf(rows, side)
        ensures exists k :: 0 <= k < |rows| && RowLineForSide(rows[k], side) == Some(l)
      {
        if l in LinesOf(init, side) {
          var k :| 0 <= k < |init| && RowLineForSide(init[k], side) == Some(l);
          assert rows[k] == init[k];
        } else {
          assert RowLineForSide(rows[|rows| - 1], side) == Some(l);
        }
      }
    }
  }

  /** The smallest value of a non-empty sequence. */
  function SeqMin(s: seq<nat>): (r: nat)
    requires |s| > 0
    ensures r in s && forall x :: x in s ==> r <= x
  {
    if |s| == 1 then s[0]
    else
      var m := SeqMin(s[1..]);
      assert forall x :: x in s ==> x == s[0] || x in s[1..];
      Min(s[0], m)
  }

  /** The largest value of a non-empty sequence. */
  function SeqMax(s: seq<nat>): (r: nat)
    requires |s| > 0
    ensures r in s && forall x :: x in s ==> x <= r
  {
    if |s| == 1 then s[0]
    else
      var m := SeqMax(s[1..]);
      assert forall x :: x in s ==> x == s[0] || x in s[1..];
      Max(s[0], m)
  }

  /** The end line and the optional start line of a comment over these lines (sorted: last, and first when they differ). */
  function LinesToAnchor(lines: seq<nat>): Option<(nat, Option<nat>)>
  {
    if |lines| == 0 then None
    else
      var lo := SeqMin(lines);
      var hi := SeqMax(lines);
      Some((hi, if lo != hi then Some(lo) else None))
  }

  /**
   * `selected_diff_comment_lines`: the lines the selected rows carry on
   * that side, as an end line and (for more than one distinct line) a
   * start line.
   */
  function CommentLines(cur: Cursor, side: Side): Option<(nat, Option<nat>)>
  {
    match SelectedFile(cur)
    case None => None
    case Some(file) =>
      if |file.rows| == 0 then None
      else
        var range := ClampedRange(cur, |file.rows|);
        LinesToAnchor(LinesOf(file.rows[range.0..range.1 + 1], side))
  }

  /** On any rows: the anchor of their lines runs from their smallest to their largest line on that side. */
  lemma AnchorOfRowsSpec(sel: seq<DiffRow>, side: Side)
    ensures LinesToAnchor(LinesOf(sel, side)).None? ==> forall k :: 0 <= k < |sel| ==> RowLineForSide(sel[k], side).None?
    ensures LinesToAnchor(LinesOf(sel, side)).Some? ==>
      var a := LinesToAnchor(LinesOf(sel, side)).value;
      var b := Bounds(a.0, a.1);
      (exists k :: 0 <= k < |sel| && RowLineForSide(sel[k], side) == Some(b.0)) &&
      (exists k :: 0 <= k < |sel| && RowLineForSide(sel[k], side) == Some(b.1)) &&
      (forall k :: 0 <= k < |sel| && RowLineForSide(sel[k], side).Some? ==> b.0 <= RowLineForSide(sel[k], side).value <= b.1)
  {
    LinesOfSpec(sel, side);
    var lines := LinesOf(sel, side);
    forall k | 0 <= k < |sel| && RowLineForSide(sel[k], side).Some?
      ensures RowLineForSide(sel[k], side).value in lines
    {
    }
    if |lines| > 0 {
      var lo := SeqMin(lines);
      var hi := SeqMax(lines);
      assert Bounds(hi, if lo != hi then Some(lo) else None) == (lo, hi);
    }
  }

  /**
   * `anchor` spans the lines rows `s..e` carry on that side: none when no
   * such row has a line there, otherwise both ends are lines of such rows
   * and every such row's line lies in between.
   */
  predicate SpansLines(rows: seq<DiffRow>, s: nat, e: nat, side: Side, anchor: Option<(nat, Option<nat>)>)
  {
    s <= e < |rows| &&
    (anchor.None? ==> forall k :: s <= k <= e ==> RowLineForSide(rows[k], side).None?) &&
    (anchor.Some? ==>
      var b := Bounds(anchor.value.0, anchor.value.1);
      (exists k :: s <= k <= e && RowLineForSide(rows[k], side) == Some(b.0)) &&
      (exists k :: s <= k <= e && RowLineForSide(rows[k], side) == Some(b.1)) &&
      (forall k :: s <= k <= e && RowLineForSide(rows[k], side).Some? ==> b.0 <= RowLineForSide(rows[k], side).value <= b.1))
  }

  /** The same, for the rows `s..e` of a longer sequence. */
  lemma SliceAnchorSpec(rows: seq<DiffRow>, s: nat, e: nat, side: Side)
    requires s <= e < |rows|
    ensures SpansLines(rows, s, e, side, LinesToAnchor(LinesOf(rows[s..e + 1], side)))
  {
    var sel := rows[s..e + 1];
    AnchorOfRowsSpec(sel, side);
    assert forall k :: s <= k <= e ==> rows[k] == sel[k - s];
    if LinesToAnchor(LinesOf(sel, side)).Some? {
      var a := LinesToAnchor(LinesOf(sel, side)).value;
      var b := Bounds(a.0, a.1);
      var k1 :| 0 <= k1 < |sel| && RowLineForSide(sel[k1], side) == Some(b.0);
      var k2 :| 0 <= k2 < |sel| && RowLineForSide(sel[k2], side) == Some(b.1);
      assert rows[s + k1] == sel[k1] && rows[s + k2] == sel[k2];
    }
  }

  /**
   * The comment range derived from a selection runs exactly from the
   * smallest to the largest line the selected rows carry on that side: both
   * ends are carried by selected rows, every selected row's line lies in
   * between, and there is no range when no selected row has a line there.
   */
  lemma CommentLinesSpec(file: DiffFile, cur: Cursor, side: Side)
    requires SelectedFile(cur) == Some(file) && |file.rows| > 0
    ensures SpansLines(file.rows, ClampedRange(cur, |file.rows|).0, ClampedRange(cur, |file.rows|).1, side,
                       CommentLines(cur, side))
  {
    var range := ClampedRange(cur, |file.rows|);
    CommentLinesOfFile(file, cur, side);
    SliceAnchorSpec(file.rows, range.0, range.1, side);
  }

  /** With a selected file that has rows, the comment lines are those of its clamped selected rows. */
  lemma CommentLinesOfFile(file: DiffFile, cur: Cursor, side: Side)
    requires SelectedFile(cur) == Some(file) && |file.rows| > 0
    ensures CommentLines(cur, side) ==
      LinesToAnchor(LinesOf(file.rows[ClampedRange(cur, |file.rows|).0..ClampedRange(cur, |file.rows|).1 + 1], side))
  {
  }

  /** A staged comment covers a row when it is on the same path and the row's line on its side lies in its range. */
  predicate Covers(c: PendingDraft, path: string, row: DiffRow)
  {
    c.path == path && RowLineForSide(row, c.side).Some? && ContainsLine(c, RowLineForSide(row, c.side).value)
  }

  /** The first staged comment covering a row. */
  function FirstCovering(pending: seq<PendingDraft>, path: string, row: DiffRow): (r: Option<nat>)
    ensures r.Some? ==> r.value < |pending| && Covers(pending[r.value], path, row)
    ensures r.Some? ==> forall j :: 0 <= j < r.value ==> !Covers(pending[j], path, row)
    ensures r.None? ==> forall j :: 0 <= j < |pending| ==> !Covers(pending[j], path, row)
  {
    if |pending| == 0 then None
    else if Covers(pending[0], path, row) then Some(0)
    else match FirstCovering(pending[1..], path, row)
      case None => None
      case Some(k) => Some(k + 1)
  }

  /** `selected_pending_review_comment`: the first staged comment covering the cursor row. */
  function SelectedPending(cur: Cursor, pending: seq<PendingDraft>): Option<PendingDraft>
  {
    match SelectedRow(cur)
    case None => None
    case Some(row) =>
      match FirstCovering(pending, SelectedFile(cur).value.path, row)
      case None => None
      case Some(k) => Some(pending[k])
  }

  /** `position(|comment| comment.id == id)`. */
  function IndexOfId(pending: seq<PendingDraft>, id: nat): (r: Option<nat>)
    ensures r.Some? ==> r.value < |pending| && pending[r.value].id == id
    ensures r.Some? ==> forall j :: 0 <= j < r.value ==> pending[j].id != id
    ensures r.None? ==> forall j :: 0 <= j < |pending| ==> pending[j].id != id
  {
    if |pending| == 0 then None
    else if pending[0].id == id then Some(0)
    else match IndexOfId(pending[1..], id)
      case None => None
      case Some(k) => Some(k + 1)
  }

  /** Two inclusive ranges share a line. */
  predicate RangesMeet(a: (nat, nat), b: (nat, nat))
  {
    a.0 <= b.1 && b.0 <= a.1
  }

  /** `row_overlaps_pending_comment`: the row's line on that side lies in a staged range on the same path and side. */
  predicate RowOverlapsPending(cur: Cursor, pending: seq<PendingDraft>, rowIndex: nat, side: Side)
  {
    match SelectedFile(cur)
    case None => false
    case Some(file) =>
      rowIndex < |file.rows| && RowLineForSide(file.rows[rowIndex], side).Some? &&
      exists i :: 0 <= i < |pending| && pending[i].path == file.path && pending[i].side == side &&
        ContainsLine(pending[i], RowLineForSide(file.rows[rowIndex], side).value)
  }

  /** `pending_range_overlaps_existing_comment`. */
  predicate RangeOverlaps(pending: seq<PendingDraft>, path: string, side: Side, line: nat, startLine: Option<nat>)
  {
    exists i :: 0 <= i < |pending| && pending[i].path == path && pending[i].side == side &&
      RangesMeet(Bounds(line, startLine), Bounds(pending[i].line, pending[i].startLine))
  }

  // ---------------------------------------------------------------------
  // Staging a comment
  // ---------------------------------------------------------------------

  /** What an operation on the staged comments leaves behind. */
  datatype Outcome = Outcome(result: Result<(), string>, pending: seq<PendingDraft>, nextId: nat, anchor: Option<nat>)

  /** A staged comment sits at exactly this anchor. */
  predicate AtAnchor(d: PendingDraft, path: string, side: Side, line: nat, startLine: Option<nat>)
  {
    d.path == path && d.side == side && d.line == line && d.startLine == startLine
  }

  /** The first staged comment with exactly this anchor; None when no staged comment has it. */
  function IndexOfAnchor(pending: seq<PendingDraft>, path: string, side: Side, line: nat, startLine: Option<nat>): (r: Option<nat>)
    ensures r.Some? ==>
      (r.value < |pending| && pending[r.value].path == path && pending[r.value].side == side &&
       pending[r.value].line == line && pending[r.value].startLine == startLine)
    ensures r.Some? ==> forall j :: 0 <= j < r.value ==> !AtAnchor(pending[j], path, side, line, startLine)
    ensures r.None? <==> forall j :: 0 <= j < |pending| ==> !AtAnchor(pending[j], path, side, line, startLine)
  {
    if |pending| == 0 then None
    else if pending[0].path == path && pending[0].side == side && pending[0].line == line && pending[0].startLine == startLine then Some(0)
    else match IndexOfAnchor(pending[1..], path, side, line, startLine)
      case None => None
      case Some(k) => Some(k + 1)
  }

  /** The staged list with one entry's body replaced. */
  function WithBody(pending: seq<PendingDraft>, k: nat, body: string): seq<PendingDraft>
    requires k < |pending|
  {
    pending[k := pending[k].(body := body)]
  }

  /** The checks an upsert makes before staging anything, in order: the refusal, if any. */
  function Refusal(cur: Cursor, body: string): Option<string>
  {
    if IsBlank(body) then Some("comment is empty")
    else if SelectedFile(cur).None? then Some("no diff file selected")
    else if CommentSide(cur).None? then Some("selected line is outside changed diff lines")
    else if !SelectionCommentable(cur, CommentSide(cur).value) then Some("selection must stay within changed lines in a single hunk")
    else None
  }

  /** Staging a new anchor: rewrite the comment with exactly that anchor, refuse an overlap, or append. */
  function Place(pending: seq<PendingDraft>, nextId: nat, anchor: Option<nat>,
                 path: string, side: Side, line: nat, startLine: Option<nat>, body: string): Outcome
  {
    match IndexOfAnchor(pending, path, side, line, startLine)
    case Some(k) => Outcome(Ok(()), WithBody(pending, k, body), nextId, None)
    case None =>
      if RangeOverlaps(pending, path, side, line, startLine) then
        Outcome(Err("selection overlaps an existing pending comment"), pending, nextId, anchor)
      else
        Outcome(Ok(()), pending + [PendingDraft(nextId, path, side, line, startLine, body)], SaturatingIncrement(nextId), None)
  }

  /** Once the checks pass: rewrite the hovered comment, or stage the selected line range. */
  function Stage(cur: Cursor, pending: seq<PendingDraft>, nextId: nat, body: string, side: Side): Outcome
    requires SelectedFile(cur).Some?
  {
    var hovered := SelectedPending(cur, pending);
    if hovered.Some? && IndexOfId(pending, hovered.value.id).Some? then
      Outcome(Ok(()), WithBody(pending, IndexOfId(pending, hovered.value.id).value, body), nextId, None)
    else match CommentLines(cur, side)
      case None => Outcome(Err("selected range has no commentable lines"), pending, nextId, cur.anchor)
      case Some(lines) => Place(pending, nextId, cur.anchor, SelectedFile(cur).value.path, side, lines.0, lines.1, body)
  }

  /** `upsert_pending_review_comment_from_selection`, as the outcome it leaves; the body is trimmed first. */
  function Upsert(cur: Cursor, pending: seq<PendingDraft>, nextId: nat, body: string): Outcome
  {
    match Refusal(cur, body)
    case Some(msg) => Outcome(Err(msg), pending, nextId, cur.anchor)
    case None => Stage(cur, pending, nextId, Trim(body), CommentSide(cur).value)
  }

  /** Where a comment is anchored: everything but its body. */
  predicate SameAnchor(a: PendingDraft, b: PendingDraft)
  {
    a.id == b.id && a.path == b.path && a.side == b.side && a.line == b.line && a.startLine == b.startLine
  }

  /** Two staged comments on the same path and side whose ranges share a line. */
  predicate Overlap(a: PendingDraft, b: PendingDraft)
  {
    a.path == b.path && a.side == b.side && RangesMeet(Bounds(a.line, a.startLine), Bounds(b.line, b.startLine))
  }

  /** No two staged comments overlap. */
  ghost predicate NoOverlap(pending: seq<PendingDraft>)
  {
    forall i, j :: 0 <= i < j < |pending| ==> !Overlap(pending[i], pending[j])
  }

  /** Every id is below the counter, and no two comments share one. */
  ghost predicate FreshIds(pending: seq<PendingDraft>, nextId: nat)
  {
    (forall i :: 0 <= i < |pending| ==> pending[i].id < nextId) && DistinctIds(pending)
  }

  /** What a successful upsert may do to the staged list: rewrite one body, or append one comment. */
  ghost predicate EditOrAppend(o: Outcome, pending: seq<PendingDraft>, nextId: nat)
  {
    o.anchor.None? &&
    (|o.pending| == |pending| || |o.pending| == |pending| + 1) &&
    (|o.pending| == |pending| ==> o.nextId == nextId) &&
    forall k :: 0 <= k < |pending| ==> SameAnchor(o.pending[k], pending[k])
  }

  lemma WithBodyAnchors(pending: seq<PendingDraft>, k: nat, body: string)
    requires k < |pending|
    ensures |WithBody(pending, k, body)| == |pending|
    ensures forall j :: 0 <= j < |pending| ==> SameAnchor(WithBody(pending, k, body)[j], pending[j])
  {
  }

  lemma PlaceFrame(pending: seq<PendingDraft>, nextId: nat, anchor: Option<nat>,
                   path: string, side: Side, line: nat, startLine: Option<nat>, body: string)
    ensures
      var o := Place(pending, nextId, anchor, path, side, line, startLine, body);
      (o.result.Err? ==> o.pending == pending && o.nextId == nextId && o.anchor == anchor) &&
      (o.result.Ok? ==> EditOrAppend(o, pending, nextId))
  {
    match IndexOfAnchor(pending, path, side, line, startLine)
    case Some(k) => WithBodyAnchors(pending, k, body);
    case None =>
  }

  lemma StageFrame(cur: Cursor, pending: seq<PendingDraft>, nextId: nat, body: string, side: Side)
    requires SelectedFile(cur).Some?
    ensures
      var o := Stage(cur, pending, nextId, body, side);
      (o.result.Err? ==> o.pending == pending && o.nextId == nextId && o.anchor == cur.anchor) &&
      (o.result.Ok? ==> EditOrAppend(o, pending, nextId))
  {
    var hovered := SelectedPending(cur, pending);
    if hovered.Some? && IndexOfId(pending, hovered.value.id).Some? {
      WithBodyAnchors(pending, IndexOfId(pending, hovered.value.id).value, body);
    } else if CommentLines(cur, side).Some? {
      var lines := CommentLines(cur, side).value;
      PlaceFrame(pending, nextId, cur.anchor, SelectedFile(cur).value.path, side, lines.0, lines.1, body);
    }
  }

  /**
   * Every refusal leaves the staged list, the counter and the anchor as
   * they were; a blank body is refused with "comment is empty"; a success
   * clears the anchor and either rewrites one body in place or appends one
   * comment, keeping every earlier comment's id and anchor.
   */
  lemma UpsertFrame(cur: Cursor, pending: seq<PendingDraft>, nextId: nat, body: string)
    ensures
      var o := Upsert(cur, pending, nextId, body);
      (IsBlank(body) ==> o == Outcome(Err("comment is empty"), pending, nextId, cur.anchor)) &&
      (o.result.Err? ==> o.pending == pending && o.nextId == nextId && o.anchor == cur.anchor) &&
      (o.result.Ok? ==> !IsBlank(body) && EditOrAppend(o, pending, nextId))
  {
    if Refusal(cur, body).None? {
      StageFrame(cur, pending, nextId, Trim(body), CommentSide(cur).value);
    }
  }

  lemma PlaceAppend(pending: seq<PendingDraft>, nextId: nat, anchor: Option<nat>,
                    path: string, side: Side, line: nat, startLine: Option<nat>, body: string)
    requires |Place(pending, nextId, anchor, path, side, line, startLine, body).pending| != |pending|
    ensures
      var o := Place(pending, nextId, anchor, path, side, line, startLine, body);
      var added := PendingDraft(nextId, path, side, line, startLine, body);
      o == Outcome(Ok(()), pending + [added], SaturatingIncrement(nextId), None) &&
      forall i :: 0 <= i < |pending| ==> !Overlap(pending[i], added)
  {
    if IndexOfAnchor(pending, path, side, line, startLine).Some? {
      WithBodyAnchors(pending, IndexOfAnchor(pending, path, side, line, startLine).value, body);
    }
  }

  /**
   * An append adds exactly one comment at the end: its id is the counter,
   * its anchor the selected file, side and line range, its body the trimmed
   * text; the counter goes up by one (saturating), the anchor is cleared, the
   * cursor was on no staged comment, and the new range meets no staged range
   * on the same path and side.
   */
  lemma UpsertAppend(cur: Cursor, pending: seq<PendingDraft>, nextId: nat, body: string)
    requires |Upsert(cur, pending, nextId, body).pending| != |pending|
    ensures Refusal(cur, body).None? && CommentLines(cur, CommentSide(cur).value).Some?
    ensures
      var o := Upsert(cur, pending, nextId, body);
      var side := CommentSide(cur).value;
      var lines := CommentLines(cur, side).value;
      var added := PendingDraft(nextId, SelectedFile(cur).value.path, side, lines.0, lines.1, Trim(body));
      o == Outcome(Ok(()), pending + [added], SaturatingIncrement(nextId), None) &&
      SelectionCommentable(cur, side) && SelectedPending(cur, pending).None? &&
      forall i :: 0 <= i < |pending| ==> !Overlap(pending[i], added)
  {
    HoveredHasIndex(cur, pending);
    var side := CommentSide(cur).value;
    var lines := CommentLines(cur, side).value;
    PlaceAppend(pending, nextId, cur.anchor, SelectedFile(cur).value.path, side, lines.0, lines.1, Trim(body));
  }

  /** The hovered comment is always found again by its id. */
  lemma HoveredHasIndex(cur: Cursor, pending: seq<PendingDraft>)
    ensures SelectedPending(cur, pending).Some? ==> IndexOfId(pending, SelectedPending(cur, pending).value.id).Some?
  {
    if SelectedPending(cur, pending).Some? {
      var k := FirstCovering(pending, SelectedFile(cur).value.path, SelectedRow(cur).value).value;
      assert pending[k].id == SelectedPending(cur, pending).value.id;
    }
  }

  /** Ids are unique. */
  ghost predicate DistinctIds(pending: seq<PendingDraft>)
  {
    forall i, j :: 0 <= i < j < |pending| ==> pending[i].id != pending[j].id
  }

  /**
   * With the cursor on a staged comment and the checks passed, the upsert
   * rewrites that comment's body only: same count, every other field of
   * every comment as it was, the counter unchanged and the anchor cleared
   * (ids being unique, the comment found again by id is the hovered one).
   */
  lemma UpsertEditsHovered(cur: Cursor, pending: seq<PendingDraft>, nextId: nat, body: string)
    requires Refusal(cur, body).None? && SelectedPending(cur, pending).Some? && DistinctIds(pending)
    ensures exists k :: (0 <= k < |pending| && pending[k] == SelectedPending(cur, pending).value &&
      Upsert(cur, pending, nextId, body) == Outcome(Ok(()), pending[k := pending[k].(body := Trim(body))], nextId, None))
  {
    var h := SelectedPending(cur, pending).value;
    var k := FirstCovering(pending, SelectedFile(cur).value.path, SelectedRow(cur).value).value;
    assert pending[k] == h;
    var j := IndexOfId(pending, h.id).value;
    assert j == k;
  }

  /**
   * A selection whose range meets a staged range on the same path and side
   * (with the cursor on no staged comment and no comment with exactly that
   * anchor) is refused, and nothing changes.
   */
  lemma UpsertOverlapRejected(cur: Cursor, pending: seq<PendingDraft>, nextId: nat, body: string, i: nat)
    requires Refusal(cur, body).None? && SelectedPending(cur, pending).None?
    requires CommentLines(cur, CommentSide(cur).value).Some?
    requires
      var lines := CommentLines(cur, CommentSide(cur).value).value;
      IndexOfAnchor(pending, SelectedFile(cur).value.path, CommentSide(cur).value, lines.0, lines.1).None? &&
      i < |pending| && pending[i].path == SelectedFile(cur).value.path && pending[i].side == CommentSide(cur).value &&
      RangesMeet(Bounds(lines.0, lines.1), Bounds(pending[i].line, pending[i].startLine))
    ensures Upsert(cur, pending, nextId, body) ==
      Outcome(Err("selection overlaps an existing pending comment"), pending, nextId, cur.anchor)
  {
    var lines := CommentLines(cur, CommentSide(cur).value).value;
    assert RangeOverlaps(pending, SelectedFile(cur).value.path, CommentSide(cur).value, lines.0, lines.1);
  }

  lemma WithBodyKeepsNoOverlap(pending: seq<PendingDraft>, k: nat, body: string)
    requires k < |pending| && NoOverlap(pending)
    ensures NoOverlap(WithBody(pending, k, body))
  {
    var p := WithBody(pending, k, body);
    forall i, j | 0 <= i < j < |p| ensures !Overlap(p[i], p[j]) {
      assert Overlap(p[i], p[j]) == Overlap(pending[i], pending[j]);
    }
  }

  /** Staged ranges never overlap: an upsert keeps that so. */
  lemma UpsertKeepsNoOverlap(cur: Cursor, pending: seq<PendingDraft>, nextId: nat, body: string)
    requires NoOverlap(pending)
    ensures NoOverlap(Upsert(cur, pending, nextId, body).pending)
  {
    var o := Upsert(cur, pending, nextId, body);
    UpsertFrame(cur, pending, nextId, body);
    if |o.pending| != |pending| {
      UpsertAppend(cur, pending, nextId, body);
      forall i, j | 0 <= i < j < |o.pending| ensures !Overlap(o.pending[i], o.pending[j]) {
        if j == |pending| {
          assert !Overlap(pending[i], o.pending[j]);
        } else {
          assert o.pending[i] == pending[i] && o.pending[j] == pending[j];
        }
      }
    } else if o.result.Ok? {
      forall i, j | 0 <= i < j < |o.pending| ensures !Overlap(o.pending[i], o.pending[j]) {
        assert SameAnchor(o.pending[i], pending[i]) && SameAnchor(o.pending[j], pending[j]);
        assert Overlap(o.pending[i], o.pending[j]) == Overlap(pending[i], pending[j]);
      }
    }
  }

  lemma FreshAfterAppend(pending: seq<PendingDraft>, nextId: nat, d: PendingDraft)
    requires FreshIds(pending, nextId) && d.id == nextId
    ensures FreshIds(pending + [d], nextId + 1)
  {
  }

  lemma FreshAfterEdit(pending: seq<PendingDraft>, nextId: nat, p: seq<PendingDraft>)
    requires FreshIds(pending, nextId) && |p| == |pending|
    requires forall k :: 0 <= k < |pending| ==> SameAnchor(p[k], pending[k])
    ensures FreshIds(p, nextId)
  {
  }

  /** Ids stay unique and below the counter, as long as the counter is below `u64::MAX`. */
  lemma UpsertKeepsFreshIds(cur: Cursor, pending: seq<PendingDraft>, nextId: nat, body: string)
    requires FreshIds(pending, nextId) && nextId < U64_MAX
    ensures FreshIds(Upsert(cur, pending, nextId, body).pending, Upsert(cur, pending, nextId, body).nextId)
  {
    var o := Upsert(cur, pending, nextId, body);
    UpsertFrame(cur, pending, nextId, body);
    if |o.pending| != |pending| {
      UpsertAppend(cur, pending, nextId, body);
      FreshAfterAppend(pending, nextId, o.pending[|pending|]);
      assert o.pending == pending + [o.pending[|pending|]] && o.nextId == nextId + 1;
    } else if o.result.Ok? {
      FreshAfterEdit(pending, nextId, o.pending);
    }
    assert FreshIds(o.pending, o.nextId);
  }

  // ---------------------------------------------------------------------
  // Removing, clearing and restoring
  // ---------------------------------------------------------------------

  /** What `remove_selected_pending_review_comment` leaves: whether a comment went, the list, the anchor. */
  datatype Removal = Removal(removed: bool, pending: seq<PendingDraft>, anchor: Option<nat>)

  /** `remove_selected_pending_review_comment`: drop the first comment with the hovered comment's id. */
  function RemoveSelected(cur: Cursor, pending: seq<PendingDraft>): Removal
  {
    match SelectedPending(cur, pending)
    case None => Removal(false, pending, cur.anchor)
    case Some(h) =>
      match IndexOfId(pending, h.id)
      case None => Removal(false, pending, cur.anchor)
      case Some(k) => Removal(true, pending[..k] + pending[k + 1..], None)
  }

  /**
   * A comment is removed exactly when the cursor is on one; then exactly
   * that comment goes (ids being unique), the others stay in order and the
   * anchor is cleared; otherwise nothing changes.
   */
  lemma RemoveSelectedSpec(cur: Cursor, pending: seq<PendingDraft>)
    requires DistinctIds(pending)
    ensures RemoveSelected(cur, pending).removed <==> SelectedPending(cur, pending).Some?
    ensures !RemoveSelected(cur, pending).removed ==>
      RemoveSelected(cur, pending).pending == pending && RemoveSelected(cur, pending).anchor == cur.anchor
    ensures RemoveSelected(cur, pending).removed ==>
      (RemoveSelected(cur, pending).anchor.None? &&
       exists k :: (0 <= k < |pending| && pending[k] == SelectedPending(cur, pending).value &&
         RemoveSelected(cur, pending).pending == pending[..k] + pending[k + 1..]))
  {
    HoveredHasIndex(cur, pending);
    if SelectedPending(cur, pending).Some? {
      var h := SelectedPending(cur, pending).value;
      var k := FirstCovering(pending, SelectedFile(cur).value.path, SelectedRow(cur).value).value;
      assert pending[k] == h;
      assert IndexOfId(pending, h.id).value == k;
    }
  }

  /** A restored comment is kept when its body is not blank and its path is still a changed file. */
  predicate Restorable(c: PendingDraft, changedFiles: seq<string>)
  {
    !IsBlank(c.body) && c.path in changedFiles
  }

  /** The two `retain` passes of `apply_restored_drafts` over the comments. */
  function KeepRestorable(pending: seq<PendingDraft>, changedFiles: seq<string>): (r: seq<PendingDraft>)
    ensures SubseqOf(r, pending)
    ensures forall c :: c in r <==> c in pending && Restorable(c, changedFiles)
  {
    if |pending| == 0 then []
    else
      var last := pending[|pending| - 1];
      var kept := KeepRestorable(pending[..|pending| - 1], changedFiles);
      KeepOneMore(kept, pending, changedFiles);
      if Restorable(last, changedFiles) then kept + [last] else kept
  }

  /** One more comment through the filter of `KeepRestorable`. */
  lemma KeepOneMore(kept: seq<PendingDraft>, pending: seq<PendingDraft>, changedFiles: seq<string>)
    requires |pending| > 0
    requires SubseqOf(kept, pending[..|pending| - 1])
    requires forall c :: c in kept <==> c in pending[..|pending| - 1] && Restorable(c, changedFiles)
    ensures var last := pending[|pending| - 1];
      var r := if Restorable(last, changedFiles) then kept + [last] else kept;
      SubseqOf(r, pending) && forall c :: c in r <==> c in pending && Restorable(c, changedFiles)
  {
    var init, last := pending[..|pending| - 1], pending[|pending| - 1];
    assert pending == init + [last];
    if Restorable(last, changedFiles) {
      SubseqAppendBoth(kept, init, last);
    } else {
      SubseqExtend(kept, init, last);
    }
  }

  /** `iter().map(|c| c.id).max().unwrap_or(0)`. */
  function MaxId(pending: seq<PendingDraft>): nat
  {
    if |pending| == 0 then 0 else Max(pending[0].id, MaxId(pending[1..]))
  }

  lemma {:induction false} MaxIdSpec(pending: seq<PendingDraft>)
    ensures forall i :: 0 <= i < |pending| ==> pending[i].id <= MaxId(pending)
    ensures |pending| > 0 ==> exists i :: 0 <= i < |pending| && pending[i].id == MaxId(pending)
  {
    if |pending| > 0 {
      MaxIdSpec(pending[1..]);
      if MaxId(pending) != pending[0].id {
        var i :| 0 <= i < |pending[1..]| && pending[1..][i].id == MaxId(pending[1..]);
        assert pending[i + 1].id == MaxId(pending);
      }
    }
  }

  /** The counter after a restore: one past the largest kept id, saturating; 1 when nothing is kept. */
  function RestoredNextId(kept: seq<PendingDraft>): nat
  {
    SaturatingIncrement(MaxId(kept))
  }

  /** The keys of the review threads in the comment list: the roots a reply draft may belong to. */
  function ValidRoots(comments: seq<PullRequestComment>): set<string>
  {
    set i | 0 <= i < |comments| && comments[i].ThreadEntry? :: ThreadNodes.ThreadKey(comments[i].thread)
  }

  /** The `retain` pass over the reply drafts: a known root and a non-blank body. */
  function KeepReplyDrafts(drafts: map<string, string>, roots: set<string>): map<string, string>
  {
    map k | k in drafts && k in roots && !IsBlank(drafts[k]) :: drafts[k]
  }

  /** `values().filter(|body| !body.is_empty()).count()`. */
  function NonEmptyCount(m: map<string, string>): nat
  {
    |set k | k in m && m[k] != []|
  }

  /**
   * A restore keeps, in order, exactly the comments with a non-blank body on
   * a changed file; the counter is then above every kept id (1 when none is
   * kept), unless an id has reached `u64::MAX`.
   */
  lemma RestoreSpec(pending: seq<PendingDraft>, changedFiles: seq<string>)
    ensures
      var kept := KeepRestorable(pending, changedFiles);
      SubseqOf(kept, pending) &&
      (forall c :: c in kept <==> c in pending && Restorable(c, changedFiles)) &&
      (|kept| == 0 ==> RestoredNextId(kept) == 1) &&
      ((forall i :: 0 <= i < |kept| ==> kept[i].id < U64_MAX) ==>
        forall i :: 0 <= i < |kept| ==> kept[i].id < RestoredNextId(kept))
  {
    var kept := KeepRestorable(pending, changedFiles);
    MaxIdSpec(kept);
    if |kept| > 0 && forall i :: 0 <= i < |kept| ==> kept[i].id < U64_MAX {
      var i :| 0 <= i < |kept| && kept[i].id == MaxId(kept);
      assert MaxId(kept) < U64_MAX;
    }
  }

  /**
   * The reply drafts kept are exactly those on a review thread of the
   * comment list with a non-blank body, each with its body.
   */
  lemma KeepReplyDraftsSpec(drafts: map<string, string>, comments: seq<PullRequestComment>)
    ensures
      var kept := KeepReplyDrafts(drafts, ValidRoots(comments));
      (forall k :: k in kept <==>
        (k in drafts && !IsBlank(drafts[k]) &&
         exists i :: 0 <= i < |comments| && comments[i].ThreadEntry? && ThreadNodes.ThreadKey(comments[i].thread) == k)) &&
      (forall k :: k in kept ==> kept[k] == drafts[k])
  {
  }

  /** After the reply drafts are filtered, the count reported is their number. */
  lemma ReplyCountSpec(drafts: map<string, string>, roots: set<string>)
    ensures NonEmptyCount(KeepReplyDrafts(drafts, roots)) == |KeepReplyDrafts(drafts, roots)|
  {
    var kept := KeepReplyDrafts(drafts, roots);
    var nonEmpty := set k | k in kept && kept[k] != [];
    forall k | k in kept ensures k in nonEmpty {
      assert !IsBlank(kept[k]);
    }
    assert nonEmpty == kept.Keys;
    assert |kept.Keys| == |kept|;
  }

  // ---------------------------------------------------------------------
  // The range anchor and cursor movement
  // ---------------------------------------------------------------------

  /**
   * `toggle_diff_selection_anchor`: a set anchor is cleared; otherwise the
   * cursor row becomes the anchor when it can carry a comment, is covered by
   * no staged comment on that side and lies inside a hunk.
   */
  function ToggledAnchor(cur: Cursor, pending: seq<PendingDraft>): Option<nat>
  {
    if cur.anchor.Some? then None
    else match SelectedFile(cur)
      case None => cur.anchor
      case Some(file) =>
        match CommentSide(cur)
        case None => None
        case Some(side) =>
          if RowOverlapsPending(cur, pending, cur.line, side) then None
          else if HunkIndexForRow(file, cur.line).Some? then Some(cur.line)
          else None
  }

  /** The anchor is set exactly on a commentable row outside every staged range and inside a hunk. */
  lemma ToggledAnchorSpec(cur: Cursor, pending: seq<PendingDraft>)
    ensures cur.anchor.Some? ==> ToggledAnchor(cur, pending).None?
    ensures ToggledAnchor(cur, pending).Some? <==>
      (cur.anchor.None? && CommentSide(cur).Some? &&
       !RowOverlapsPending(cur, pending, cur.line, CommentSide(cur).value) &&
       HunkIndexForRow(SelectedFile(cur).value, cur.line).Some?)
    ensures ToggledAnchor(cur, pending).Some? ==>
      ToggledAnchor(cur, pending).value == cur.line && IsCommentable(SelectedRow(cur).value, CommentSide(cur).value)
  {
  }

  /**
   * The cursor move while a range is anchored: to the neighbouring row when
   * it can carry a comment on the side, lies in the anchor's hunk and is
   * covered by no staged comment; otherwise the cursor stays.
   */
  function AnchoredStep(cur: Cursor, pending: seq<PendingDraft>, file: DiffFile, side: Side, dir: Direction): nat
  {
    var anchorHunk := HunkIndexForRow(file, cur.anchor.UnwrapOr(cur.line));
    match NextCommentableRow(file.rows, cur.line, side, dir)
    case None => cur.line
    case Some(row) =>
      if HunkIndexForRow(file, row) == anchorHunk then
        if RowOverlapsPending(cur, pending, row, side) then cur.line else row
      else cur.line
  }

  /** `move_selected_diff_line_down`: the new cursor row. */
  function MoveDownLine(cur: Cursor, pending: seq<PendingDraft>): nat
  {
    match SelectedFile(cur)
    case None => 0
    case Some(file) =>
      if |file.rows| == 0 then 0
      else if cur.anchor.Some? && CommentSide(cur).Some? then AnchoredStep(cur, pending, file, CommentSide(cur).value, Down)
      else Min(cur.line + 1, |file.rows| - 1)
  }

  /** `move_selected_diff_line_up`: the new cursor row. */
  function MoveUpLine(cur: Cursor, pending: seq<PendingDraft>): nat
  {
    if cur.anchor.Some? && SelectedFile(cur).Some? && CommentSide(cur).Some? then
      AnchoredStep(cur, pending, SelectedFile(cur).value, CommentSide(cur).value, Up)
    else if cur.line == 0 then 0
    else cur.line - 1
  }

  /**
   * While a range is anchored, a move either leaves the cursor where it is
   * or takes it one row in the direction of travel, onto a row that can
   * carry a comment on the same side, in the anchor's hunk and covered by no
   * staged comment on that side.
   */
  lemma AnchoredMoveSpec(cur: Cursor, pending: seq<PendingDraft>, dir: Direction)
    requires cur.anchor.Some? && CommentSide(cur).Some?
    ensures
      var file := SelectedFile(cur).value;
      var side := CommentSide(cur).value;
      var n := if dir == Down then MoveDownLine(cur, pending) else MoveUpLine(cur, pending);
      n == cur.line ||
      (n < |file.rows| && (dir == Down ==> n == cur.line + 1) && (dir == Up ==> n + 1 == cur.line) &&
       IsCommentable(file.rows[n], side) && HunkIndexForRow(file, n) == HunkIndexForRow(file, cur.anchor.value) &&
       !RowOverlapsPending(cur, pending, n, side))
  {
  }

  /** Moving down never leaves the rows of a non-empty selected file. */
  lemma MoveDownInFile(cur: Cursor, pending: seq<PendingDraft>)
    requires SelectedFile(cur).Some? && |SelectedFile(cur).value.rows| > 0
    ensures MoveDownLine(cur, pending) < |SelectedFile(cur).value.rows|
  {
  }

  /**
   * `keep_selected_line_visible`: the scroll offset after the move, the
   * viewport being at least one row and the offset a `u16`.
   */
  function KeepVisible(line: nat, scroll: nat, height: nat): nat
  {
    var viewport := Max(height, 1);
    if line < scroll then Min(line, U16_MAX)
    else if line > scroll + (viewport - 1) then Min(line - (viewport - 1), U16_MAX)
    else scroll
  }

  /**
   * After scrolling, a cursor row that fits a `u16` is inside the viewport;
   * a row already inside does not scroll; the offset stays a `u16`.
   */
  lemma KeepVisibleSpec(line: nat, scroll: nat, height: nat)
    ensures line <= U16_MAX ==> KeepVisible(line, scroll, height) <= line <= KeepVisible(line, scroll, height) + Max(height, 1) - 1
    ensures scroll <= line <= scroll + Max(height, 1) - 1 ==> KeepVisible(line, scroll, height) == scroll
    ensures scroll <= U16_MAX ==> KeepVisible(line, scroll, height) <= U16_MAX
  {
  }

  // ---------------------------------------------------------------------
  // Jumping between staged comments
  // ---------------------------------------------------------------------

  /** `PendingCommentLocation`: the file and the first row a staged comment is shown at. */
  datatype Location = Location(commentId: nat, fileIndex: nat, rowIndex: nat)

  /** Where a staged comment is shown: its file in the diff and the first row inside its range. */
  function LocationOf(diff: DiffData, c: PendingDraft): Option<Location>
  {
    match FileIndexOf(diff.files, c.path)
    case None => None
    case Some(f) =>
      match PendingRowIndex(diff.files[f], c)
      case None => None
      case Some(r) => Some(Location(c.id, f, r))
  }

  /** The `filter_map` over the staged comments. */
  function CollectLocations(diff: DiffData, pending: seq<PendingDraft>): seq<Location>
  {
    if |pending| == 0 then []
    else
      (match LocationOf(diff, pending[0]) case None => [] case Some(l) => [l]) + CollectLocations(diff, pending[1..])
  }

  lemma {:induction false} CollectLocationsSpec(diff: DiffData, pending: seq<PendingDraft>)
    ensures forall l :: l in CollectLocations(diff, pending) <==>
      exists i :: 0 <= i < |pending| && LocationOf(diff, pending[i]) == Some(l)
  {
    if |pending| > 0 {
      var tail := pending[1..];
      CollectLocationsSpec(diff, tail);
      var head := match LocationOf(diff, pending[0]) case None => [] case Some(l) => [l];
      var rest := CollectLocations(diff, tail);
      assert CollectLocations(diff, pending) == head + rest;
      forall l ensures l in head + rest <==> exists i :: 0 <= i < |pending| && LocationOf(diff, pending[i]) == Some(l)
      {
        if exists i :: 0 <= i < |pending| && LocationOf(diff, pending[i]) == Some(l) {
          var i :| 0 <= i < |pending| && LocationOf(diff, pending[i]) == Some(l);
          if i > 0 {
            assert tail[i - 1] == pending[i];
          }
        }
        if l in rest {
          var i :| 0 <= i < |tail| && LocationOf(diff, tail[i]) == Some(l);
          assert pending[i + 1] == tail[i];
        }
      }
    }
  }

  /** The sort key `(file_index, row_index, comment_id)`, compared lexicographically. */
  predicate LocLe(a: Location, b: Location)
  {
    a.fileIndex < b.fileIndex ||
    (a.fileIndex == b.fileIndex && (a.rowIndex < b.rowIndex || (a.rowIndex == b.rowIndex && a.commentId <= b.commentId)))
  }

  predicate SortedLocs(s: seq<Location>)
  {
    forall i, j :: 0 <= i < j < |s| ==> LocLe(s[i], s[j])
  }

  function InsertLoc(x: Location, s: seq<Location>): seq<Location>
  {
    if |s| == 0 || LocLe(x, s[0]) then [x] + s else [s[0]] + InsertLoc(x, s[1..])
  }

  lemma LocLeTrans(a: Location, b: Location, c: Location)
    requires LocLe(a, b) && LocLe(b, c)
    ensures LocLe(a, c)
  {
  }

  lemma {:induction false} InsertLocMultiset(x: Location, s: seq<Location>)
    ensures multiset(InsertLoc(x, s)) == multiset(s) + multiset{x}
  {
    if |s| > 0 && !LocLe(x, s[0]) {
      InsertLocMultiset(x, s[1..]);
      assert s == [s[0]] + s[1..];
    }
  }

  lemma InsertLocFront(x: Location, s: seq<Location>)
    requires SortedLocs(s) && (|s| == 0 || LocLe(x, s[0]))
    ensures SortedLocs([x] + s)
  {
    var r := [x] + s;
    forall i, j | 0 <= i < j < |r| ensures LocLe(r[i], r[j]) {
      if i == 0 && j > 1 {
        LocLeTrans(x, s[0], s[j - 1]);
      }
    }
  }

  lemma {:induction false} InsertLocSpec(x: Location, s: seq<Location>)
    requires SortedLocs(s)
    ensures SortedLocs(InsertLoc(x, s))
  {
    if |s| == 0 || LocLe(x, s[0]) {
      InsertLocFront(x, s);
    } else {
      var tail := s[1..];
      InsertLocSpec(x, tail);
      InsertLocMultiset(x, tail);
      InsertLocAfterHead(s[0], x, tail);
    }
  }

  /** Putting back a head that is no greater than anything in a sorted tail keeps it sorted. */
  lemma InsertLocAfterHead(h: Location, x: Location, tail: seq<Location>)
    requires LocLe(h, x) && (forall k :: 0 <= k < |tail| ==> LocLe(h, tail[k]))
    requires SortedLocs(InsertLoc(x, tail)) && multiset(InsertLoc(x, tail)) == multiset(tail) + multiset{x}
    ensures SortedLocs([h] + InsertLoc(x, tail))
  {
    var t := InsertLoc(x, tail);
    HeadBelowAll(h, x, tail, t);
    ConsSorted(h, t);
  }

  /** A head below every element of what `x` joined `tail` to form is below each of its elements. */
  lemma HeadBelowAll(h: Location, x: Location, tail: seq<Location>, t: seq<Location>)
    requires LocLe(h, x) && (forall k :: 0 <= k < |tail| ==> LocLe(h, tail[k]))
    requires multiset(t) == multiset(tail) + multiset{x}
    ensures forall k :: 0 <= k < |t| ==> LocLe(h, t[k])
  {
    forall k | 0 <= k < |t| ensures LocLe(h, t[k]) {
      assert t[k] in multiset(tail) + multiset{x};
      if t[k] != x {
        assert t[k] in tail;
      }
    }
  }

  /** A head no greater than anything in a sorted list keeps it sorted. */
  lemma ConsSorted(h: Location, t: seq<Location>)
    requires SortedLocs(t) && forall k :: 0 <= k < |t| ==> LocLe(h, t[k])
    ensures SortedLocs([h] + t)
  {
    var r := [h] + t;
    forall i, j | 0 <= i < j < |r| ensures LocLe(r[i], r[j]) {
      if i == 0 {
        assert r[j] == t[j - 1];
      } else {
        assert r[i] == t[i - 1] && r[j] == t[j - 1];
      }
    }
  }

  /** `sort_unstable_by_key`: the key has the comment id last, so equal keys are equal locations and the order is determined. */
  function SortLocs(s: seq<Location>): seq<Location>
  {
    if |s| == 0 then [] else InsertLoc(s[0], SortLocs(s[1..]))
  }

  lemma {:induction false} SortLocsSpec(s: seq<Location>)
    ensures SortedLocs(SortLocs(s)) && multiset(SortLocs(s)) == multiset(s)
  {
    if |s| > 0 {
      SortLocsSpec(s[1..]);
      InsertLocSpec(s[0], SortLocs(s[1..]));
      InsertLocMultiset(s[0], SortLocs(s[1..]));
      assert s == [s[0]] + s[1..];
    }
  }

  /** Where a location is: file, then row. */
  predicate KeyLess(a: Location, b: Location)
  {
    a.fileIndex < b.fileIndex || (a.fileIndex == b.fileIndex && a.rowIndex < b.rowIndex)
  }

  predicate SameKey(a: Location, b: Location)
  {
    a.fileIndex == b.fileIndex && a.rowIndex == b.rowIndex
  }

  /** `dedup_by_key((file_index, row_index))`: of each run of equal keys, the first stays. */
  function DedupLocs(s: seq<Location>): (r: seq<Location>)
    ensures |s| > 0 ==> |r| > 0 && SameKey(r[|r| - 1], s[|s| - 1])
  {
    if |s| == 0 then []
    else
      var d := DedupLocs(s[..|s| - 1]);
      if |d| > 0 && SameKey(d[|d| - 1], s[|s| - 1]) then d else d + [s[|s| - 1]]
  }

  lemma KeyLessThenLe(a: Location, b: Location, c: Location)
    requires KeyLess(a, b) && (KeyLess(b, c) || SameKey(b, c))
    ensures KeyLess(a, c)
  {
  }

  /** On sorted input the kept locations have strictly increasing keys. */
  lemma {:induction false} DedupIncreasing(s: seq<Location>)
    requires SortedLocs(s)
    ensures forall i, j :: 0 <= i < j < |DedupLocs(s)| ==> KeyLess(DedupLocs(s)[i], DedupLocs(s)[j])
  {
    if |s| > 0 {
      var init, last := s[..|s| - 1], s[|s| - 1];
      assert SortedLocs(init);
      DedupIncreasing(init);
      var d := DedupLocs(init);
      if |d| > 0 && !SameKey(d[|d| - 1], last) {
        var r := d + [last];
        assert LocLe(init[|init| - 1], last);
        assert KeyLess(d[|d| - 1], last);
        forall i, j | 0 <= i < j < |r| ensures KeyLess(r[i], r[j]) {
          if j == |d| && i < |d| - 1 {
            KeyLessThenLe(d[i], d[|d| - 1], last);
          } else if j < |d| {
            assert r[i] == d[i] && r[j] == d[j];
          }
        }
      }
    }
  }

  /** The kept locations come from the input, and every input key is kept. */
  lemma {:induction false} DedupMembers(s: seq<Location>)
    ensures forall y :: y in DedupLocs(s) ==> y in s
    ensures forall x :: x in s ==> exists y :: y in DedupLocs(s) && SameKey(x, y)
  {
    if |s| > 0 {
      var init, last := s[..|s| - 1], s[|s| - 1];
      DedupMembers(init);
      var d := DedupLocs(init);
      assert s == init + [last];
      assert forall y :: y in d ==> y in DedupLocs(s);
      forall x | x in s ensures exists y :: y in DedupLocs(s) && SameKey(x, y) {
        if x != last {
          assert x in init;
        } else if |d| > 0 && SameKey(d[|d| - 1], last) {
          assert d[|d| - 1] in DedupLocs(s);
        } else {
          assert last in DedupLocs(s);
        }
      }
    }
  }

  /** `pending_comment_locations`: no locations without a diff. */
  function PendingLocations(diff: Option<DiffData>, pending: seq<PendingDraft>): seq<Location>
  {
    match diff
    case None => []
    case Some(d) => DedupLocs(SortLocs(CollectLocations(d, pending)))
  }

  lemma SortLocsMembers(s: seq<Location>)
    ensures SortedLocs(SortLocs(s)) && forall l :: l in SortLocs(s) <==> l in s
  {
    SortLocsSpec(s);
    forall l ensures l in SortLocs(s) <==> l in s {
      assert l in SortLocs(s) <==> l in multiset(SortLocs(s));
      assert l in s <==> l in multiset(s);
    }
  }

  /**
   * The jump targets have strictly increasing (file, row) keys; each is where
   * some staged comment is shown, and every staged comment shown somewhere
   * has its (file, row) among them.
   */
  lemma PendingLocationsSpec(diff: DiffData, pending: seq<PendingDraft>)
    ensures
      var locs := PendingLocations(Some(diff), pending);
      (forall i, j :: 0 <= i < j < |locs| ==> KeyLess(locs[i], locs[j])) &&
      (forall l :: l in locs ==> exists i :: 0 <= i < |pending| && LocationOf(diff, pending[i]) == Some(l)) &&
      (forall i :: 0 <= i < |pending| && LocationOf(diff, pending[i]).Some? ==>
        exists l :: l in locs && SameKey(l, LocationOf(diff, pending[i]).value))
  {
    var all := CollectLocations(diff, pending);
    CollectLocationsSpec(diff, pending);
    SortLocsMembers(all);
    DedupIncreasing(SortLocs(all));
    DedupMembers(SortLocs(all));
    forall i | 0 <= i < |pending| && LocationOf(diff, pending[i]).Some?
      ensures LocationOf(diff, pending[i]).value in SortLocs(all)
    {
    }
  }

  /** The cursor's key is after `l`'s. */
  predicate After(l: Location, file: nat, line: nat)
  {
    l.fileIndex > file || (l.fileIndex == file && l.rowIndex > line)
  }

  predicate Before(l: Location, file: nat, line: nat)
  {
    l.fileIndex < file || (l.fileIndex == file && l.rowIndex < line)
  }

  /** The first location after the cursor. */
  function FirstAfter(locs: seq<Location>, file: nat, line: nat): (r: Option<nat>)
    ensures r.Some? ==> r.value < |locs| && After(locs[r.value], file, line)
    ensures r.Some? ==> forall j :: 0 <= j < r.value ==> !After(locs[j], file, line)
    ensures r.None? ==> forall j :: 0 <= j < |locs| ==> !After(locs[j], file, line)
  {
    if |locs| == 0 then None
    else if After(locs[0], file, line) then Some(0)
    else match FirstAfter(locs[1..], file, line)
      case None => None
      case Some(k) => Some(k + 1)
  }

  /** The last location before the cursor. */
  function LastBefore(locs: seq<Location>, file: nat, line: nat): (r: Option<nat>)
    ensures r.Some? ==> r.value < |locs| && Before(locs[r.value], file, line)
    ensures r.Some? ==> forall j :: r.value < j < |locs| ==> !Before(locs[j], file, line)
    ensures r.None? ==> forall j :: 0 <= j < |locs| ==> !Before(locs[j], file, line)
  {
    if |locs| == 0 then None
    else if Before(locs[|locs| - 1], file, line) then Some(|locs| - 1)
    else LastBefore(locs[..|locs| - 1], file, line)
  }

  /** `jump_next_pending_review_comment`'s target: the first location after the cursor, wrapping to the first. */
  function NextTarget(locs: seq<Location>, file: nat, line: nat): Location
    requires |locs| > 0
  {
    match FirstAfter(locs, file, line)
    case Some(k) => locs[k]
    case None => locs[0]
  }

  /** `jump_prev_pending_review_comment`'s target: the last location before the cursor, wrapping to the last. */
  function PrevTarget(locs: seq<Location>, file: nat, line: nat): Location
    requires |locs| > 0
  {
    match LastBefore(locs, file, line)
    case Some(k) => locs[k]
    case None => locs[|locs| - 1]
  }

  /**
   * On increasing keys the next target is the nearest location after the
   * cursor: after it, with no location in between; with none after the
   * cursor it is the first location. The previous target mirrors this.
   */
  lemma JumpTargetsSpec(locs: seq<Location>, file: nat, line: nat)
    requires |locs| > 0 && forall i, j :: 0 <= i < j < |locs| ==> KeyLess(locs[i], locs[j])
    ensures NextTarget(locs, file, line) in locs && PrevTarget(locs, file, line) in locs
    ensures (exists i :: 0 <= i < |locs| && After(locs[i], file, line)) ==>
      After(NextTarget(locs, file, line), file, line) &&
      forall i :: 0 <= i < |locs| && After(locs[i], file, line) && locs[i] != NextTarget(locs, file, line) ==>
        KeyLess(NextTarget(locs, file, line), locs[i])
    ensures (forall i :: 0 <= i < |locs| ==> !After(locs[i], file, line)) ==> NextTarget(locs, file, line) == locs[0]
    ensures (exists i :: 0 <= i < |locs| && Before(locs[i], file, line)) ==>
      Before(PrevTarget(locs, file, line), file, line) &&
      forall i :: 0 <= i < |locs| && Before(locs[i], file, line) && locs[i] != PrevTarget(locs, file, line) ==>
        KeyLess(locs[i], PrevTarget(locs, file, line))
    ensures (forall i :: 0 <= i < |locs| ==> !Before(locs[i], file, line)) ==> PrevTarget(locs, file, line) == locs[|locs| - 1]
  {
  }
}
