/**
 * `ReviewScreenState`: the diff cursor, the collapsed-directory tree of
 * changed files and the overlay of staged (pending) inline comments of one
 * pull request. The methods change the fields in place; what they compute
 * is stated through the functions of `PendingComments` and `DiffTree`.
 */
module ReviewScreen {
  import opened Wrappers
  import opened Text
  import opened Domain
  import opened PendingComments
  import opened DiffTree
  import Drafts

  // ---------------------------------------------------------------------
  // Directory keys above a file
  // ---------------------------------------------------------------------

  /** The key built after `k` rounds of `ensure_diff_file_expanded`'s loop: the first `k` segments joined by '/'. */
  function KeyAfter(parts: seq<string>, k: nat): string
    requires k <= |parts|
  {
    if k == 0 then [] else JoinPath(KeyAfter(parts, k - 1), parts[k - 1])
  }

  /** The keys of the first `k` rounds. */
  function KeysUpTo(parts: seq<string>, k: nat): set<string>
    requires k <= |parts|
  {
    if k == 0 then {} else KeysUpTo(parts, k - 1) + {KeyAfter(parts, k)}
  }

  /** The keys of every directory enclosing the file at `path`: all segment prefixes but the whole path. */
  function AncestorKeys(path: string): set<string>
  {
    var parts := PathSegments(path);
    KeysUpTo(parts, if |parts| == 0 then 0 else |parts| - 1)
  }

  /** "/" followed by the name, for each name: joining after a first piece appends one of these per further piece. */
  lemma {:induction false} SlashJoinedSnoc(names: seq<string>, last: string)
    ensures SlashJoined(names + [last]) == SlashJoined(names) + "/" + last
    decreases |names|
  {
    if |names| > 0 {
      assert (names + [last])[1..] == names[1..] + [last];
      SlashJoinedSnoc(names[1..], last);
    } else {
      assert SlashJoined([last][1..]) == [];
    }
  }

  /** Segments are never empty, so the key after `k >= 1` rounds is the first `k` segments joined by '/'. */
  lemma {:induction false} KeyAfterJoin(parts: seq<string>, k: nat)
    requires 1 <= k <= |parts|
    requires forall j :: 0 <= j < |parts| ==> |parts[j]| > 0
    ensures KeyAfter(parts, k) == Join(parts[..k], "/")
    ensures |KeyAfter(parts, k)| > 0
  {
    if k == 1 {
      assert parts[..1] == [parts[0]];
    } else {
      KeyAfterJoin(parts, k - 1);
      JoinOneMore(parts, k);
    }
  }

  /** Joining one more segment onto the first `k - 1` appends "/" and that segment. */
  lemma JoinOneMore(parts: seq<string>, k: nat)
    requires 2 <= k <= |parts|
    ensures Join(parts[..k], "/") == Join(parts[..k - 1], "/") + "/" + parts[k - 1]
  {
    var first, mid, last := parts[0], parts[1..k - 1], parts[k - 1];
    JoinSlashJoined(first, mid);
    JoinSlashJoined(first, mid + [last]);
    assert parts[..k - 1] == [first] + mid;
    assert parts[..k] == [first] + (mid + [last]);
    SlashJoinedSnoc(mid, last);
    StringAssoc(first, SlashJoined(mid), "/" + last);
  }

  lemma StringAssoc(a: string, b: string, c: string)
    ensures a + (b + c) == a + b + c
  {
  }

  /** The keys of the first `k` rounds are exactly the joined prefixes of 1 to `k` segments. */
  lemma {:induction false} KeysUpToSpec(parts: seq<string>, k: nat)
    requires k <= |parts|
    requires forall j :: 0 <= j < |parts| ==> |parts[j]| > 0
    ensures forall x :: x in KeysUpTo(parts, k) <==> exists j :: 1 <= j <= k && x == Join(parts[..j], "/")
  {
    if k > 0 {
      KeysUpToSpec(parts, k - 1);
      KeyAfterJoin(parts, k);
    }
  }

  // ---------------------------------------------------------------------
  // What expanding and recomputing produce
  // ---------------------------------------------------------------------

  /**
   * `recompute_diff_tree_rows_cache`: no rows without a diff; the tree with
   * the collapsed directories when nothing is typed in the diff search;
   * otherwise the fully expanded tree filtered by the query.
   */
  function RecomputedRows(diff: Option<DiffData>, query: string, collapsed: set<string>): seq<DiffTreeRow>
  {
    match diff
    case None => []
    case Some(d) =>
      if |query| == 0 then DiffTreeRows(Paths(d), collapsed)
      else DiffTreeFilter(DiffTreeRows(Paths(d), {}), Paths(d), query)
  }

  /** Whether `ensure_diff_file_expanded` has anything to do: the search is blank and the file exists. */
  predicate Expandable(diff: Option<DiffData>, query: string, fileIndex: nat)
  {
    IsBlank(query) && diff.Some? && fileIndex < |diff.value.files|
  }

  /** The collapsed set after `ensure_diff_file_expanded`. */
  function ExpandedDirs(collapsed: set<string>, diff: Option<DiffData>, query: string, fileIndex: nat): set<string>
  {
    if Expandable(diff, query, fileIndex) then collapsed - AncestorKeys(diff.value.files[fileIndex].path)
    else collapsed
  }

  /** The cached rows after `ensure_diff_file_expanded`: recomputed only when some directory was expanded. */
  function ExpandedRows(rows: seq<DiffTreeRow>, collapsed: set<string>, diff: Option<DiffData>, query: string,
                        fileIndex: nat): seq<DiffTreeRow>
  {
    if Expandable(diff, query, fileIndex) && collapsed * AncestorKeys(diff.value.files[fileIndex].path) != {} then
      RecomputedRows(diff, query, ExpandedDirs(collapsed, diff, query, fileIndex))
    else rows
  }

  /** The expansion of an existing file under a blank search, in terms of the loop's result. */
  lemma ExpandStep(rows: seq<DiffTreeRow>, collapsed: set<string>, diff: Option<DiffData>, query: string,
                   fileIndex: nat, after: set<string>, changed: bool)
    requires Expandable(diff, query, fileIndex)
    requires var parts := PathSegments(diff.value.files[fileIndex].path);
      var n := if |parts| == 0 then 0 else |parts| - 1;
      after == collapsed - KeysUpTo(parts, n) && (changed <==> collapsed * KeysUpTo(parts, n) != {})
    ensures after == ExpandedDirs(collapsed, diff, query, fileIndex)
    ensures ExpandedRows(rows, collapsed, diff, query, fileIndex) ==
      if changed then RecomputedRows(diff, query, after) else rows
  {
  }

  /**
   * The directories above a file are exactly the joins of its first 1 to
   * n-1 path segments, so expanding a file (`ExpandedDirs`) removes each of
   * them from the collapsed set and nothing else.
   */
  lemma AncestorKeysSpec(path: string)
    ensures var parts := PathSegments(path);
      forall x :: x in AncestorKeys(path) <==> exists j :: 1 <= j < |parts| && x == Join(parts[..j], "/")
  {
    var parts := PathSegments(path);
    var k := if |parts| == 0 then 0 else |parts| - 1;
    KeysUpToSpec(parts, k);
    var keys := AncestorKeys(path);
    assert keys == KeysUpTo(parts, k);
    forall x
      ensures x in keys <==> exists j :: 1 <= j < |parts| && x == Join(parts[..j], "/")
    {
      if x in keys {
        var j :| 1 <= j <= k && x == Join(parts[..j], "/");
        assert 1 <= j < |parts|;
      }
      if exists j :: 1 <= j < |parts| && x == Join(parts[..j], "/") {
        var j :| 1 <= j < |parts| && x == Join(parts[..j], "/");
        assert 1 <= j <= k;
      }
    }
  }

  /** The first tree row showing file `fileIndex`. */
  function FirstRowOfFile(rows: seq<DiffTreeRow>, fileIndex: nat): (r: Option<nat>)
    ensures r.Some? ==> (r.value < |rows| && rows[r.value].fileIndex == Some(fileIndex) &&
      forall k :: 0 <= k < r.value ==> rows[k].fileIndex != Some(fileIndex))
    ensures r.None? ==> forall k :: 0 <= k < |rows| ==> rows[k].fileIndex != Some(fileIndex)
  {
    if |rows| == 0 then None
    else if rows[0].fileIndex == Some(fileIndex) then Some(0)
    else match FirstRowOfFile(rows[1..], fileIndex)
      case None => None
      case Some(k) => Some(k + 1)
  }

  /** `first_hunk_scroll`: the first hunk start of the file when it fits a `u16`, else 0. */
  function FirstHunkScroll(diff: Option<DiffData>, fileIndex: nat): (r: nat)
    ensures r <= U16_MAX
    ensures r > 0 ==> (diff.Some? && fileIndex < |diff.value.files| &&
      |diff.value.files[fileIndex].hunkStarts| > 0 && r == diff.value.files[fileIndex].hunkStarts[0])
  {
    if diff.Some? && fileIndex < |diff.value.files| && |diff.value.files[fileIndex].hunkStarts| > 0
       && diff.value.files[fileIndex].hunkStarts[0] <= U16_MAX
    then diff.value.files[fileIndex].hunkStarts[0]
    else 0
  }

  /** Dropping one staged comment keeps the ids fresh and the ranges apart. */
  lemma RemoveKeepsInvariants(pending: seq<PendingDraft>, nextId: nat, k: nat)
    requires k < |pending|
    ensures FreshIds(pending, nextId) ==> FreshIds(pending[..k] + pending[k + 1..], nextId)
    ensures NoOverlap(pending) ==> NoOverlap(pending[..k] + pending[k + 1..])
  {
    var rest := pending[..k] + pending[k + 1..];
    assert forall i :: 0 <= i < |rest| ==> rest[i] == pending[if i < k then i else i + 1];
  }

  // ---------------------------------------------------------------------
  // The state
  // ---------------------------------------------------------------------

  /** The selected rows' lines on one side, collected row by row in order. */
  method CollectLines(rows: seq<DiffRow>, side: Side, lo: nat, hi: nat) returns (collected: seq<nat>)
    requires lo <= hi <= |rows|
    ensures collected == LinesOf(rows[lo..hi], side)
  {
    collected := [];
    var k := lo;
    while k < hi
      invariant lo <= k <= hi
      invariant collected == LinesOf(rows[lo..k], side)
    {
      LinesOfSnoc(rows, side, lo, k);
      var line := RowLineForSide(rows[k], side);
      if line.Some? {
        collected := collected + [line.value];
      }
      k := k + 1;
    }
  }

  lemma LinesOfSnoc(rows: seq<DiffRow>, side: Side, lo: nat, k: nat)
    requires lo <= k < |rows|
    ensures LinesOf(rows[lo..k + 1], side) == LinesOf(rows[lo..k], side) + (if RowLineForSide(rows[k], side).Some? then [RowLineForSide(rows[k], side).value] else [])
  {
    assert rows[lo..k + 1][..k - lo] == rows[lo..k];
  }

  /** `ReviewScreenState`, with the fields the staging engine and the diff cursor use. */
  class ReviewScreenState {
    /** The pull request under review (the fields of its summary the model reads). */
    var pull: Drafts.PullRef
    var data: PullRequestData
    var diff: Option<DiffData>
    var diffError: Option<string>
    var selectedDiffRow: nat
    var selectedDiffFile: nat
    var selectedDiffLine: nat
    var anchor: Option<nat>
    var diffScroll: nat
    var selectedHunk: nat
    var viewportHeight: nat
    /** The query typed in the diff-tree search box. */
    var diffSearchQuery: string
    var diffTreeRows: seq<DiffTreeRow>
    var pending: seq<PendingDraft>
    var replyDrafts: map<string, string>
    var nextId: nat
    var collapsedDirs: set<string>

    /**
     * `new`: the summary takes the loaded head commit, no diff yet,
     * everything at the top, nothing staged, the first id 1.
     */
    constructor(pull: Drafts.PullRef, data: PullRequestData)
      ensures this.pull == pull.(headSha := data.headSha)
      ensures this.data == data && DiffViewReset()
      ensures pending == [] && replyDrafts == map[] && nextId == 1
    {
      this.pull := pull.(headSha := data.headSha);
      this.data := data;
      diff := None;
      diffError := None;
      selectedDiffRow, selectedDiffFile, selectedDiffLine := 0, 0, 0;
      anchor := None;
      diffScroll, selectedHunk, viewportHeight := 0, 0, 0;
      diffSearchQuery := [];
      diffTreeRows := [];
      pending := [];
      replyDrafts := map[];
      nextId := 1;
      collapsedDirs := {};
    }

    /** The cursor as the pure functions see it. */
    function Cur(): Cursor
      reads `diff, `selectedDiffFile, `selectedDiffLine, `anchor
    {
      Cursor(diff, selectedDiffFile, selectedDiffLine, anchor)
    }

    /** No diff and the diff view at its start: the state `new` and `clear_diff` leave. */
    predicate DiffViewReset()
      reads this
    {
      diff == None && diffError == None &&
      selectedDiffRow == 0 && selectedDiffFile == 0 && selectedDiffLine == 0 && anchor == None &&
      diffScroll == 0 && selectedHunk == 0 && viewportHeight == 0 &&
      collapsedDirs == {} && diffSearchQuery == [] && diffTreeRows == []
    }

    /** Ids are distinct and below the counter, and no two staged ranges overlap. */
    ghost predicate Valid()
      reads this
    {
      FreshIds(pending, nextId) && NoOverlap(pending)
    }

    /**
     * `set_data`: replaces the loaded data and moves the summary to its head
     * commit; reports whether the head commit changed. Staged comments and
     * reply drafts are kept.
     */
    method SetData(newData: PullRequestData) returns (headChanged: bool)
      modifies `pull, `data
      ensures headChanged <==> old(pull.headSha) != newData.headSha
      ensures pull == old(pull).(headSha := newData.headSha) && data == newData
    {
      headChanged := pull.headSha != newData.headSha;
      pull := pull.(headSha := newData.headSha);
      data := newData;
    }

    /** `clear_diff`: drops the diff and its error and resets the diff view. */
    method ClearDiff()
      modifies `diff, `diffError, `selectedDiffRow, `selectedDiffFile, `selectedDiffLine, `anchor,
               `diffScroll, `selectedHunk, `viewportHeight, `collapsedDirs, `diffSearchQuery, `diffTreeRows
      ensures DiffViewReset()
    {
      diff, diffError := None, None;
      selectedDiffRow, selectedDiffFile, selectedDiffLine := 0, 0, 0;
      anchor := None;
      diffScroll, selectedHunk, viewportHeight := 0, 0, 0;
      collapsedDirs := {};
      diffSearchQuery := [];
      diffTreeRows := [];
    }

    /** `clear_reply_draft`: forgets the draft reply of one thread, and only it. */
    method ClearReplyDraft(rootKey: string)
      modifies `replyDrafts
      ensures replyDrafts == old(replyDrafts) - {rootKey}
    {
      replyDrafts := replyDrafts - {rootKey};
    }

    /** `toggle_diff_selection_anchor`. */
    method ToggleDiffSelectionAnchor()
      modifies `anchor
      ensures anchor == ToggledAnchor(old(Cur()), pending)
    {
      if anchor.Some? {
        anchor := None;
        return;
      }
      var file := SelectedFile(Cur());
      if file.None? {
        return;
      }
      var side := CommentSide(Cur());
      if side.None? {
        anchor := None;
      } else if RowOverlapsPending(Cur(), pending, selectedDiffLine, side.value) {
        anchor := None;
      } else if HunkIndexForRow(file.value, selectedDiffLine).Some? {
        anchor := Some(selectedDiffLine);
      } else {
        anchor := None;
      }
    }

    /** `clear_diff_selection_anchor`. */
    method ClearDiffSelectionAnchor()
      modifies `anchor
      ensures anchor == None
    {
      anchor := None;
    }

    /** `clear_pending_review_comments`: nothing staged, ids restart at 1, no anchor. */
    method ClearPendingReviewComments()
      modifies `pending, `nextId, `anchor
      ensures pending == [] && nextId == 1 && anchor == None
      ensures Valid()
    {
      pending := [];
      nextId := 1;
      anchor := None;
    }

    /**
     * `apply_restored_drafts`: keeps the restored comments with a body whose
     * path is still changed, the next id one above the largest kept id, and
     * the non-empty reply drafts of threads that still exist; returns how
     * many of each were restored.
     */
    method ApplyRestoredDrafts(restored: seq<PendingDraft>, drafts: map<string, string>)
      returns (restoredComments: nat, restoredReplies: nat)
      modifies `pending, `nextId, `replyDrafts
      ensures pending == KeepRestorable(restored, data.changedFiles)
      ensures nextId == RestoredNextId(pending)
      ensures replyDrafts == KeepReplyDrafts(drafts, ValidRoots(data.comments))
      ensures restoredComments == |pending| && restoredReplies == NonEmptyCount(replyDrafts)
    {
      pending := KeepRestorable(restored, data.changedFiles);
      nextId := RestoredNextId(pending);
      replyDrafts := KeepReplyDrafts(drafts, ValidRoots(data.comments));
      restoredComments := |pending|;
      restoredReplies := NonEmptyCount(replyDrafts);
    }

    /** `pending_review_comment_is_outdated`: only against a loaded diff, and then exactly when it no longer matches. */
    method PendingReviewCommentIsOutdated(c: PendingDraft) returns (outdated: bool)
      ensures outdated <==> diff.Some? && !MatchesCurrentDiff(diff.value, c)
      ensures diff.None? ==> !outdated
    {
      if diff.None? {
        return false;
      }
      var matches := PendingCommentMatchesCurrentDiff(diff.value, c);
      outdated := !matches;
    }

    /** `remove_selected_pending_review_comment`. */
    method RemoveSelectedPendingReviewComment() returns (removed: bool)
      modifies `pending, `anchor
      ensures Removal(removed, pending, anchor) == RemoveSelected(old(Cur()), old(pending))
      ensures old(Valid()) ==> Valid()
    {
      var hovered := SelectedPending(Cur(), pending);
      if hovered.None? {
        return false;
      }
      var index := IndexOfId(pending, hovered.value.id);
      if index.None? {
        return false;
      }
      RemoveKeepsInvariants(pending, nextId, index.value);
      pending := pending[..index.value] + pending[index.value + 1..];
      anchor := None;
      removed := true;
    }

    /**
     * `selected_diff_comment_lines`: collects the selected rows' lines on
     * the side, then takes the largest as the end line and the smallest as
     * the start line when they differ.
     */
    method SelectedDiffCommentLines(side: Side) returns (lines: Option<(nat, Option<nat>)>)
      ensures lines == CommentLines(Cur(), side)
    {
      var file := SelectedFile(Cur());
      if file.None? || |file.value.rows| == 0 {
        return None;
      }
      var rows := file.value.rows;
      var range := ClampedRange(Cur(), |rows|);
      var collected := CollectLines(rows, side, range.0, range.1 + 1);
      lines := LinesToAnchor(collected);
    }

    /** `upsert_pending_review_comment_from_selection`. */
    method UpsertPendingReviewCommentFromSelection(body: string) returns (result: Result<(), string>)
      modifies `pending, `nextId, `anchor
      ensures Outcome(result, pending, nextId, anchor) == Upsert(old(Cur()), old(pending), old(nextId), body)
      ensures old(Valid()) && old(nextId) < U64_MAX ==> Valid()
    {
      if Valid() && nextId < U64_MAX {
        UpsertKeepsFreshIds(Cur(), pending, nextId, body);
        UpsertKeepsNoOverlap(Cur(), pending, nextId, body);
      }
      result := UpsertSteps(body);
    }

    /** The checks and edits of the upsert, in the order `upsert_pending_review_comment_from_selection` makes them. */
    method UpsertSteps(body: string) returns (result: Result<(), string>)
      modifies `pending, `nextId, `anchor
      ensures Outcome(result, pending, nextId, anchor) == Upsert(old(Cur()), old(pending), old(nextId), body)
    {
      var trimmed := Trim(body);
      if trimmed == [] {
        return Err("comment is empty");
      }
      var file := SelectedFile(Cur());
      if file.None? {
        return Err("no diff file selected");
      }
      var side := CommentSide(Cur());
      if side.None? {
        return Err("selected line is outside changed diff lines");
      }
      if !SelectionCommentable(Cur(), side.value) {
        return Err("selection must stay within changed lines in a single hunk");
      }
      var hovered := SelectedPending(Cur(), pending);
      if hovered.Some? {
        var index := IndexOfId(pending, hovered.value.id);
        if index.Some? {
          pending := WithBody(pending, index.value, trimmed);
          anchor := None;
          return Ok(());
        }
      }
      var lines := SelectedDiffCommentLines(side.value);
      if lines.None? {
        return Err("selected range has no commentable lines");
      }
      result := PlaceSelection(file.value.path, side.value, lines.value.0, lines.value.1, trimmed);
    }

    /** The last step of the upsert: rewrite the comment with exactly this anchor, refuse an overlap, or append. */
    method PlaceSelection(path: string, side: Side, line: nat, startLine: Option<nat>, body: string)
      returns (result: Result<(), string>)
      modifies `pending, `nextId, `anchor
      ensures Outcome(result, pending, nextId, anchor) == Place(old(pending), old(nextId), old(anchor), path, side, line, startLine, body)
    {
      var existing := IndexOfAnchor(pending, path, side, line, startLine);
      if existing.Some? {
        pending := WithBody(pending, existing.value, body);
      } else if RangeOverlaps(pending, path, side, line, startLine) {
        return Err("selection overlaps an existing pending comment");
      } else {
        pending := pending + [PendingDraft(nextId, path, side, line, startLine, body)];
        nextId := SaturatingIncrement(nextId);
      }
      anchor := None;
      result := Ok(());
    }

    /** `keep_selected_line_visible`. */
    method KeepSelectedLineVisible()
      modifies `diffScroll
      ensures diffScroll == KeepVisible(selectedDiffLine, old(diffScroll), viewportHeight)
    {
      var viewport := Max(viewportHeight, 1);
      if selectedDiffLine < diffScroll {
        diffScroll := Min(selectedDiffLine, U16_MAX);
        return;
      }
      var lowerBound := diffScroll + (viewport - 1);
      if selectedDiffLine > lowerBound {
        diffScroll := Min(selectedDiffLine - (viewport - 1), U16_MAX);
      }
    }

    /** `set_diff_viewport_height`: never below one row. */
    method SetDiffViewportHeight(height: nat)
      modifies `viewportHeight
      ensures viewportHeight == Max(height, 1) && viewportHeight >= 1
    {
      viewportHeight := Max(height, 1);
    }

    /**
     * `move_selected_diff_line_down`: without a non-empty selected file the
     * cursor and the scroll go to the top; otherwise the cursor takes its
     * next row and the viewport follows.
     */
    method MoveSelectedDiffLineDown()
      modifies `selectedDiffLine, `diffScroll
      ensures selectedDiffLine == MoveDownLine(old(Cur()), pending)
      ensures diffScroll == if SelectedFile(old(Cur())).None? || |SelectedFile(old(Cur())).value.rows| == 0 then 0
                            else KeepVisible(selectedDiffLine, old(diffScroll), viewportHeight)
    {
      var file := SelectedFile(Cur());
      if file.None? || |file.value.rows| == 0 {
        selectedDiffLine := 0;
        diffScroll := 0;
        return;
      }
      var next := Min(selectedDiffLine + 1, |file.value.rows| - 1);
      if anchor.Some? {
        var side := CommentSide(Cur());
        if side.Some? {
          next := AnchoredStep(Cur(), pending, file.value, side.value, Down);
        }
      }
      selectedDiffLine := next;
      KeepSelectedLineVisible();
    }

    /** `move_selected_diff_line_up`: the cursor takes its previous row and the viewport follows. */
    method MoveSelectedDiffLineUp()
      modifies `selectedDiffLine, `diffScroll
      ensures selectedDiffLine == MoveUpLine(old(Cur()), pending)
      ensures diffScroll == KeepVisible(selectedDiffLine, old(diffScroll), viewportHeight)
    {
      var next := if selectedDiffLine == 0 then 0 else selectedDiffLine - 1;
      if anchor.Some? {
        var file := SelectedFile(Cur());
        var side := CommentSide(Cur());
        if file.Some? && side.Some? {
          next := AnchoredStep(Cur(), pending, file.value, side.value, Up);
        }
      }
      selectedDiffLine := next;
      KeepSelectedLineVisible();
    }

    /**
     * `set_selected_diff_file`: choosing the current file does nothing;
     * another file starts at its first hunk with no anchor.
     */
    method SetSelectedDiffFile(fileIndex: nat)
      modifies `selectedDiffFile, `diffScroll, `selectedHunk, `selectedDiffLine, `anchor
      ensures fileIndex == old(selectedDiffFile) ==>
        diffScroll == old(diffScroll) && selectedHunk == old(selectedHunk) &&
        selectedDiffLine == old(selectedDiffLine) && anchor == old(anchor)
      ensures fileIndex != old(selectedDiffFile) ==>
        diffScroll == FirstHunkScroll(diff, fileIndex) && selectedHunk == 0 &&
        selectedDiffLine == diffScroll && anchor == None
      ensures selectedDiffFile == fileIndex
    {
      if fileIndex == selectedDiffFile {
        return;
      }
      selectedDiffFile := fileIndex;
      diffScroll := FirstHunkScroll(diff, fileIndex);
      selectedHunk := 0;
      selectedDiffLine := diffScroll;
      anchor := None;
    }

    /** `recompute_diff_tree_rows_cache`. */
    method RecomputeDiffTreeRowsCache()
      modifies `diffTreeRows
      ensures diffTreeRows == RecomputedRows(diff, diffSearchQuery, collapsedDirs)
    {
      if diff.None? {
        diffTreeRows := [];
        return;
      }
      if |diffSearchQuery| == 0 {
        diffTreeRows := BuildDiffTreeRows(diff.value, collapsedDirs);
      } else {
        var expanded := BuildDiffTreeRows(diff.value, {});
        diffTreeRows := FilterDiffTreeRows(expanded, diff.value, diffSearchQuery);
      }
    }

    /**
     * The loop of `ensure_diff_file_expanded`: builds the key of each
     * enclosing directory one segment at a time and removes it from the
     * collapsed set; reports whether any of them was collapsed.
     */
    method ExpandAncestors(parts: seq<string>) returns (changed: bool)
      modifies `collapsedDirs
      ensures var n := if |parts| == 0 then 0 else |parts| - 1;
        collapsedDirs == old(collapsedDirs) - KeysUpTo(parts, n) &&
        (changed <==> old(collapsedDirs) * KeysUpTo(parts, n) != {})
    {
      var n := if |parts| == 0 then 0 else |parts| - 1;
      var key := "";
      changed := false;
      var i := 0;
      while i < n
        invariant 0 <= i <= n
        invariant key == KeyAfter(parts, i)
        invariant collapsedDirs == old(collapsedDirs) - KeysUpTo(parts, i)
        invariant changed <==> old(collapsedDirs) * KeysUpTo(parts, i) != {}
      {
        key := JoinPath(key, parts[i]);
        changed := changed || key in collapsedDirs;
        collapsedDirs := collapsedDirs - {key};
        i := i + 1;
        assert key in old(collapsedDirs) * KeysUpTo(parts, i) ==> changed;
      }
    }

    /**
     * `ensure_diff_file_expanded`: with a blank search, un-collapses every
     * directory above the file, building each key one segment at a time,
     * and recomputes the rows when that changed anything.
     */
    method EnsureDiffFileExpanded(fileIndex: nat)
      modifies `collapsedDirs, `diffTreeRows
      ensures collapsedDirs == ExpandedDirs(old(collapsedDirs), diff, diffSearchQuery, fileIndex)
      ensures diffTreeRows == ExpandedRows(old(diffTreeRows), old(collapsedDirs), diff, diffSearchQuery, fileIndex)
    {
      if !IsBlank(diffSearchQuery) || diff.None? || fileIndex >= |diff.value.files| {
        return;
      }
      ExpandFile(fileIndex);
    }

    /** The expanding branch of `ensure_diff_file_expanded`, for an existing file under a blank search. */
    method ExpandFile(fileIndex: nat)
      requires Expandable(diff, diffSearchQuery, fileIndex)
      modifies `collapsedDirs, `diffTreeRows
      ensures collapsedDirs == ExpandedDirs(old(collapsedDirs), diff, diffSearchQuery, fileIndex)
      ensures diffTreeRows == ExpandedRows(old(diffTreeRows), old(collapsedDirs), diff, diffSearchQuery, fileIndex)
    {
      var parts := PathSegments(diff.value.files[fileIndex].path);
      var changed := ExpandAncestors(parts);
      ExpandStep(old(diffTreeRows), old(collapsedDirs), diff, diffSearchQuery, fileIndex, collapsedDirs, changed);
      if changed {
        RecomputeDiffTreeRowsCache();
      }
    }

    /**
     * The whole new state after `jump_to_pending_comment_location(loc)`:
     * the file's directories are expanded, the file and row are selected
     * with no anchor, the hunk is the row's hunk, the viewport follows the
     * row, and the tree selection moves to the file's row when it is shown.
     */
    twostate predicate JumpedTo(loc: Location)
      reads this
    {
      collapsedDirs == ExpandedDirs(old(collapsedDirs), diff, diffSearchQuery, loc.fileIndex) &&
      diffTreeRows == ExpandedRows(old(diffTreeRows), old(collapsedDirs), diff, diffSearchQuery, loc.fileIndex) &&
      selectedDiffFile == loc.fileIndex && selectedDiffLine == loc.rowIndex && anchor == None &&
      selectedHunk == (
        match SelectedFile(Cur())
        case Some(file) => HunkIndexForRow(file, loc.rowIndex).UnwrapOr(0)
        case None => if loc.fileIndex == old(selectedDiffFile) then old(selectedHunk) else 0) &&
      diffScroll == KeepVisible(loc.rowIndex,
        if loc.fileIndex == old(selectedDiffFile) then old(diffScroll) else FirstHunkScroll(diff, loc.fileIndex),
        viewportHeight) &&
      selectedDiffRow == FirstRowOfFile(diffTreeRows, loc.fileIndex).UnwrapOr(old(selectedDiffRow))
    }

    /**
     * The cursor part of `jump_to_pending_comment_location`: selects the
     * file (starting at its first hunk when it is another file), puts the
     * cursor on the row with no anchor, takes the row's hunk when the file
     * exists, and scrolls the row into view.
     */
    method MoveCursorTo(loc: Location)
      modifies `selectedDiffFile, `diffScroll, `selectedHunk, `selectedDiffLine, `anchor
      ensures selectedDiffFile == loc.fileIndex && selectedDiffLine == loc.rowIndex && anchor == None
      ensures selectedHunk == (
        match SelectedFile(Cur())
        case Some(file) => HunkIndexForRow(file, loc.rowIndex).UnwrapOr(0)
        case None => if loc.fileIndex == old(selectedDiffFile) then old(selectedHunk) else 0)
      ensures diffScroll == KeepVisible(loc.rowIndex,
        if loc.fileIndex == old(selectedDiffFile) then old(diffScroll) else FirstHunkScroll(diff, loc.fileIndex),
        viewportHeight)
    {
      SetSelectedDiffFile(loc.fileIndex);
      selectedDiffLine := loc.rowIndex;
      anchor := None;
      var file := SelectedFile(Cur());
      if file.Some? {
        selectedHunk := HunkIndexForRow(file.value, loc.rowIndex).UnwrapOr(0);
      }
      KeepSelectedLineVisible();
    }

    /** The tree selection moves to the first row of the file when the tree shows it. */
    method SelectTreeRowOfFile(fileIndex: nat)
      modifies `selectedDiffRow
      ensures selectedDiffRow == FirstRowOfFile(diffTreeRows, fileIndex).UnwrapOr(old(selectedDiffRow))
    {
      var row := FirstRowOfFile(diffTreeRows, fileIndex);
      if row.Some? {
        selectedDiffRow := row.value;
      }
    }

    /** `jump_to_pending_comment_location`. */
    method JumpToPendingCommentLocation(loc: Location)
      modifies `collapsedDirs, `diffTreeRows, `selectedDiffFile, `diffScroll, `selectedHunk,
               `selectedDiffLine, `anchor, `selectedDiffRow
      ensures JumpedTo(loc)
    {
      EnsureDiffFileExpanded(loc.fileIndex);
      MoveAndSelect(loc);
    }

    /** The cursor moves to the location, then the tree selection follows it. */
    method MoveAndSelect(loc: Location)
      modifies `selectedDiffFile, `diffScroll, `selectedHunk, `selectedDiffLine, `anchor, `selectedDiffRow
      ensures selectedDiffFile == loc.fileIndex && selectedDiffLine == loc.rowIndex && anchor == None
      ensures selectedHunk == (
        match SelectedFile(Cur())
        case Some(file) => HunkIndexForRow(file, loc.rowIndex).UnwrapOr(0)
        case None => if loc.fileIndex == old(selectedDiffFile) then old(selectedHunk) else 0)
      ensures diffScroll == KeepVisible(loc.rowIndex,
        if loc.fileIndex == old(selectedDiffFile) then old(diffScroll) else FirstHunkScroll(diff, loc.fileIndex),
        viewportHeight)
      ensures selectedDiffRow == FirstRowOfFile(diffTreeRows, loc.fileIndex).UnwrapOr(old(selectedDiffRow))
    {
      MoveCursorTo(loc);
      SelectTreeRowOfFile(loc.fileIndex);
    }

    /**
     * `jump_next_pending_review_comment`: to the first staged location past
     * the cursor, wrapping to the first; false and no change when nothing
     * staged can be located.
     */
    method JumpNextPendingReviewComment() returns (jumped: bool)
      modifies `collapsedDirs, `diffTreeRows, `selectedDiffFile, `diffScroll, `selectedHunk,
               `selectedDiffLine, `anchor, `selectedDiffRow
      ensures jumped <==> |PendingLocations(diff, pending)| > 0
      ensures !jumped ==> unchanged(this)
      ensures jumped ==>
        JumpedTo(NextTarget(PendingLocations(diff, pending), old(selectedDiffFile), old(selectedDiffLine)))
    {
      var locations := PendingLocations(diff, pending);
      if |locations| == 0 {
        return false;
      }
      var target := NextTarget(locations, selectedDiffFile, selectedDiffLine);
      JumpToPendingCommentLocation(target);
      jumped := true;
    }

    /** `jump_prev_pending_review_comment`: to the last staged location before the cursor, wrapping to the last. */
    method JumpPrevPendingReviewComment() returns (jumped: bool)
      modifies `collapsedDirs, `diffTreeRows, `selectedDiffFile, `diffScroll, `selectedHunk,
               `selectedDiffLine, `anchor, `selectedDiffRow
      ensures jumped <==> |PendingLocations(diff, pending)| > 0
      ensures !jumped ==> unchanged(this)
      ensures jumped ==>
        JumpedTo(PrevTarget(PendingLocations(diff, pending), old(selectedDiffFile), old(selectedDiffLine)))
    {
      var locations := PendingLocations(diff, pending);
      if |locations| == 0 {
        return false;
      }
      var target := PrevTarget(locations, selectedDiffFile, selectedDiffLine);
      JumpToPendingCommentLocation(target);
      jumped := true;
    }
  }
}
