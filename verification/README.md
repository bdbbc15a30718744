# critic — a verified model of the review client's core

critic is a terminal client for reviewing GitHub pull requests: it lists pull
requests, shows each one's diff side by side, groups review comments into
threads, lets the user stage line comments and replies locally (persisted
as drafts between sessions), and submits them as one review. This project
models the logic behind those features in Dafny and proves what it promises.

Modules, one per component of the program:

- `Wrappers`, `Text`, `Seqs`, `Order`: Option/Result, the Rust string helpers
  the code relies on (Unicode `trim`, `to_ascii_lowercase`, `contains`,
  `split`, decimal formatting, UTF-8 length), sequence lemmas, and the stable
  sorts used by `sort`/`sort_by`.
- `Domain`: review comments, outdated detection, full-line selection, thread totals.
- `Diff`, `DiffPath`: building a side-by-side diff file from a difftastic
  result and the two file texts (row kinds, status, fallback alignment,
  change-range normalisation and merging, hunk starts, trailing empty row),
  changed-path normalisation and base64.
- `Comments`: building review threads from flat comments, and setting or
  finding a thread's resolution.
- `PendingComments`, `ReviewScreen` (class `ReviewScreenState`): the staging
  engine of line comments — selection ranges, commentable rows, upsert and
  removal of pending comments, id allocation, restore after reload, matching
  against the current diff.
- `AppSearch` (class `AppState`), `AppHandlers`: search filters, ordering and
  selection, and the handlers that apply worker results and drafts.
- `ThreadNodes`, `ThreadSearch`, `TreeFilter`, `SearchInput`, `DiffTree`:
  the comment tree and changed-file tree, their row lists and their
  query filters (a hit keeps its ancestors).
- `Drafts`: the draft file name, the draft store (its root and a map from file name to record),
  save/load/clear and the change signature.
- `ReviewDiffView`, `ReviewView`, `Footer`, `Shared`, `Markdown`,
  `ThreadRender`: the rendering helpers — highlight range clipping and
  merging, masks, styled cells, hint wrapping, previews and timestamps, the
  markdown line builder, comment locations and patch selection.
- `Config`: theme preferences, the persisted config, theme modes, the
  256-colour palette and channel scaling.

Where the code works in place (the pending-comment list, the screen and
application state, loops with accumulators), the model is a class or a method
with loop invariants, proved against specification functions; pure code is
functions, with lemmas for the properties.

## Model

| member | source | states |
|---|---|---|
| Domain.ReviewThreadTotals | src/domain/mod.rs:77-93 | `total` is the number of review-thread entries, `resolved` the number of those marked resolved, and `resolved <= total` |
| Domain.ResolvedAtMostTotal | src/domain/mod.rs:77-93 | for every comment list, the resolved threads never outnumber the threads |
| Domain.FullLine | src/domain/mod.rs:149-165 | the full-line range starts at 0 and is recognised as a full line (its end is `usize::MAX`) |
| Domain.Author | src/domain/mod.rs:203-218 | an issue comment's login, or the review or summary user's login with "unknown" when the user is missing |
| Domain.Body | src/domain/mod.rs:220-227 | a review comment's body, or the issue or summary body with "" when it is missing |
| Domain.OutdatedIff | src/domain/mod.rs:229-234 | a review comment is outdated exactly when its path is blank or it has neither `line` nor `start_line` |
| Diff.SortByKey | src/github/diff.rs:579-580 | the sort by `(start, end)` is a permutation of its input and is sorted |
| Diff.CoversPermutation | src/github/diff.rs:579-580 | reordering the ranges does not change the positions they cover |
| Diff.MergeAllGapped | src/github/diff.rs:582-590 | folding a sorted list leaves consecutive ranges separated by a gap (`next.start > prev.end`) |
| Diff.MergeAllNonEmpty | src/github/diff.rs:582-590 | folding keeps every range non-empty when the input ranges are |
| Diff.MergeAllCovers | src/github/diff.rs:582-590 | folding a sorted list covers exactly the positions the list covers |
| Diff.MergedRangesProperties | src/github/diff.rs:571-592 | for any input the merge is gapped, empty exactly for empty input, keeps non-emptiness, and covers exactly the input positions |
| Diff.MergeHighlightRanges | src/github/diff.rs:571-592 | the merge loop computes the merged ranges: gapped, non-empty when the input is, covering exactly the union of the input |
| Diff.StatusFromDifft | src/github/diff.rs:461-467 | "created" gives Added, "deleted" Removed, anything else Modified |
| Diff.FallbackStatus | src/github/diff.rs:469-477 | Added when every base line is empty, else Removed when every head line is empty, else Modified |
| Diff.FallbackAlignedLines | src/github/diff.rs:479-502 | Added pairs `(None, Some(i))` per head line, Removed `(Some(i), None)` per base line, Modified `max(len)` pairs with each side `Some(i)` iff `i` is below that side's length |
| Diff.NormalizeChangeRange | src/github/diff.rs:558-563 | a change becomes a range exactly when `start < end`, and then with the same bounds |
| Diff.ValidRanges | src/github/diff.rs:521-526 | the ranges kept from a line's changes are all non-empty |
| Diff.RawHighlightsKeys | src/github/diff.rs:517-546 | every line given highlight ranges is a changed line, and its entry is non-empty with non-empty ranges |
| Diff.AnnotationsHighlightsWellFormed | src/github/diff.rs:506-556 | each highlighted line of either side is a changed line and its ranges are non-empty, non-empty each, and gapped |
| Diff.AnnotationsHighlightsCoverChanges | src/github/diff.rs:565-569 | after normalisation a line's ranges cover exactly the positions its reported changes cover |
| Diff.NormalizeHighlightMap | src/github/diff.rs:565-569 | every entry of the map is replaced by its merged ranges and the keys are kept |
| Diff.ChangedLineAnnotations | src/github/diff.rs:506-556 | the two loops compute the changed-line sets and the merged highlight maps of all chunk lines |
| Diff.ClassifyRowKind | src/github/diff.rs:594-610 | Added iff only the head side is present, Removed iff only the base side, Modified iff both and either is a changed line, Context otherwise |
| Diff.FirstHit | src/github/diff.rs:630-634 | the first aligned pair touching the chunk's lines, and no earlier pair touches them; None when none does |
| Diff.HunkStartsShape | src/github/diff.rs:612-646 | every hunk start is below the row count and no two adjacent starts are equal |
| Diff.HunkStartsSound | src/github/diff.rs:612-646 | every hunk start is the first row of some chunk |
| Diff.HunkStartsComplete | src/github/diff.rs:612-646 | every chunk whose first row lies before the row count has that row among the hunk starts |
| Diff.HunkRowStarts | src/github/diff.rs:612-646 | the loop computes the hunk starts of the chunks |
| Diff.TrimTerminalEmptyRow | src/github/diff.rs:648-657 | the result is a prefix missing at most one row, and a row is removed exactly when the last row has two empty texts and both line numbers |
| Diff.BuildRows | src/github/diff.rs:410-437 | one row per aligned pair, in order, each built from that pair's texts, line numbers, kind and highlights |
| Diff.BuildDiffFile | src/github/diff.rs:386-455 | the rows are exactly the rows of the aligned pairs (one per pair, from its texts, line numbers, highlights and kind) with a terminal empty row trimmed; the hunk starts are exactly the tool's chunk starts over those rows, or `[0]` when there are none and rows exist; hunk starts are non-empty exactly when rows are, each a chunk start or 0 and below the row count |
| Diff.FileRowsFor | src/github/diff.rs:405-445 | the rows are the aligned pairs' rows with a terminal empty row trimmed, and never all vanish for the fallback alignment |
| Diff.FileHunkStarts | src/github/diff.rs:447-453 | the chunk starts of the tool's report, or `[0]` when there are none and rows exist; each below the row count |
| DiffPath.TailComponents | src/github/diff.rs:665-674 | the components after the first are each a parent step or an ordinary non-empty, non-"." segment, as `Path::components` yields them |
| DiffPath.NormalizeChangedPathProperties | src/github/diff.rs:659-682 | blank, absolute, "."-led and ".."-holding paths are errors; an accepted path is non-empty, relative, and splits on '/' into ordinary segments of the input |
| DiffPath.NormalizeChangedPathExact | src/github/diff.rs:659-682 | the path is accepted exactly when the trimmed text is non-empty, not absolute, not "."-led and has no ".." segment; the accepted value is its non-empty, non-"." segments in order, joined by '/'; a rejection carries the trimmed text |
| DiffPath.TailComponentsNormal | src/github/diff.rs:672-678 | past a leading ".", every component is ordinary exactly when no segment is ".." |
| DiffPath.TailComponentsSegments | src/github/diff.rs:672-678 | when every component is ordinary, the pushed parts are the non-empty, non-"." segments in order |
| DiffPath.RejectsParentTraversal | src/github/diff.rs:659-682 | a path that starts with "../", such as "../etc/passwd", is refused |
| DiffPath.SplitJoin | src/github/diff.rs:681 | joining separator-free segments with '/' and splitting again gives the segments back |
| DiffPath.NormalizePathForLookup | src/github/diff.rs:684-686 | same length, no backslash left, each backslash replaced by '/' and every other character kept |
| DiffPath.EncodeGroup | src/github/diff.rs:756-766 | one group of bytes is four characters |
| DiffPath.Base64Length | src/github/diff.rs:751-771 | the encoding has `4 * ceil(n / 3)` characters |
| DiffPath.EncodedValues | src/github/diff.rs:760-764 | the four characters of a group stand for the four sextets of the packed 24-bit number, and '=' appears exactly for a missing byte |
| DiffPath.SextetsRecombine | src/github/diff.rs:760-764 | the four sextets of a 24-bit number recombine to the number |
| DiffPath.UnpackBytes | src/github/diff.rs:760 | the three bytes are recoverable from their packed number |
| DiffPath.DecodeEncodeGroup | src/github/diff.rs:756-766 | decoding one encoded group gives back its one to three bytes |
| DiffPath.DecodeEncode | src/github/diff.rs:751-771 | decoding the encoding of any byte string gives the bytes back (the RFC 4648 section 4 alphabet and padding) |
| DiffPath.Base64Encode | src/github/diff.rs:751-771 | the loop produces the encoding, of length `4 * ceil(n / 3)`, which decodes back to the input |
| Comments.LastWithIdSpec | src/github/comments.rs:363-374 | the comment the index keeps for an id is absent exactly when no comment has the id, and otherwise the one with no later comment of the same id |
| Comments.LastWithIdUnique | src/github/comments.rs:363-374 | with unique ids the index keeps every comment under its own id |
| Comments.RootsAmongMembers | src/github/comments.rs:376-388 | the root ids are exactly the ids of comments with no parent or a parent not among the ids |
| Comments.RootsAmongOrdered | src/github/comments.rs:376-388 | the root ids keep input order |
| Comments.RootIdsSpec | src/github/comments.rs:376-388 | the root ids are exactly the root comments' ids, in input order, and do not repeat when ids are unique |
| Comments.ChildIdsMembers | src/github/comments.rs:376-388 | a parent's child ids are exactly the ids of the comments replying to it |
| Comments.ChildIdsOrdered | src/github/comments.rs:376-388 | the child ids keep input order |
| Comments.ChildIdsDistinct | src/github/comments.rs:376-388 | with unique ids no child id repeats |
| Comments.IndexNodes | src/github/comments.rs:363-374 | one node per comment id, with no replies yet, holding the last comment with that id |
| Comments.LinkReplies | src/github/comments.rs:376-388 | every node keeps its comment and its replies are exactly the ids of the comments replying to it, in input order; the roots are exactly the root ids: comments with no parent or an absent one, in input order |
| Comments.LinkComment | src/github/comments.rs:377-387 | one loop turn: the comment is appended to its present parent's replies or becomes a root, so the state matches the first `i + 1` comments |
| Comments.Materialize | src/github/comments.rs:395-410 | an absent id gives None and leaves the map; a present one is removed and its tree holds that node's comment and only nodes taken out of the map, none twice; every reply id of a taken node is gone from the map, and every reply id that was present is in the tree |
| Comments.MaterializeReplies | src/github/comments.rs:397-402 | the replies are built in order from what is left of the map, each taken out once, keeping the order of the reply ids; afterwards none of the reply ids is left, and every one that was still there is placed |
| Comments.BuildReviewThreads | src/github/comments.rs:359-393 | no comment is placed twice; every node is fresh (no thread id, unresolved) and holds the last input comment with its id; the trees are drawn in input order from the root comments, and each node's replies from the comments replying to it; every root comment and every reply to a placed node is placed; with unique ids the trees are exactly the root comments and the replies exactly the child comments; when no parent chain loops, every input comment is placed |
| Comments.ForestBuilt | src/github/comments.rs:359-410 | the index, the linking loop and the materialization together leave a forest drawn from and covering the root and child ids |
| Comments.ForestExact | src/github/comments.rs:359-410 | with unique ids a forest's trees are all the root ids and each node's replies all its child ids; without parent loops every comment is placed |
| Comments.RootsOnTop | src/github/comments.rs:389-392 | with unique ids the trees are exactly the root ids, in order |
| Comments.RepliesExact | src/github/comments.rs:397-402 | with unique ids a node's replies are exactly its child ids, in order |
| Comments.AllPlaced | src/github/comments.rs:376-410 | a comment whose parent chain reaches a root within the fuel is placed |
| Comments.ReplyUnderParent | src/github/comments.rs:559-568 | a comment followed by a distinct reply to it gives one tree holding the comment, with the reply as its only child |
| Comments.LoneComment | src/github/comments.rs:570-577 | a lone comment that does not reply to itself, even to an absent parent, gives one tree holding it |
| Comments.BuildsReplyUnderParent | src/github/comments.rs:559-568 | comments 1 and 2 replying to 1 give one tree for comment 1 with the single reply 2 |
| Comments.OrphanReplyBecomesRoot | src/github/comments.rs:570-577 | comment 5 replying to the absent 999 gives one tree for comment 5 |
| Comments.FirstResolutionSpec | src/github/comments.rs:421-438 | the first-entry search finds nothing exactly when no node has an entry, and otherwise the entry of the first node that has one |
| Comments.FindIsFirstInPreorder | src/github/comments.rs:421-438 | `find_thread_resolution` returns the entry of the first node in preorder whose id is in the map |
| Comments.FindInRepliesIsFirst | src/github/comments.rs:431-435 | the search through the replies is the first entry in the preorder of the replies |
| Comments.SetThreadResolutionNodes | src/github/comments.rs:440-446 | every node of the subtree takes the given resolved flag and thread id, and every comment stays in place |
| Comments.SetAllResolutionNodes | src/github/comments.rs:443-445 | the same for a list of reply subtrees |
| Comments.SetResolvedWithoutIdNodes | src/github/comments.rs:448-453 | every node of the subtree becomes resolved; comments and thread ids stay in place |
| Comments.SetAllResolvedWithoutIdNodes | src/github/comments.rs:450-452 | the same for a list of reply subtrees |
| Comments.ResolveThreadSpec | src/github/comments.rs:308-314 | one resolution pass keeps the comments in place, marks every node with the first entry found in preorder, or else keeps thread ids and resolves a thread without id entirely |
| Comments.ResolveThreads | src/github/comments.rs:309-314 | the loop resolves every thread, each as one resolution pass describes |
| Comments.ResolvedFreshShared | src/github/comments.rs:308-314 | a resolved fresh thread has one state on every node, is resolved when it has no thread id, and holds only comments of the original |
| Comments.ResolvedForest | src/github/comments.rs:308-314 | resolving every tree keeps each node's comment and reply ids in place |
| Comments.ForestTransfer | src/github/comments.rs:308-314 | the forest facts depend only on the nodes' comments and reply ids, so they hold after resolution |
| Comments.ListReviewThreads | src/github/comments.rs:291-317 | every node of a listed thread shares the thread's resolved flag and id, a thread with no id is resolved; the forest is the one `build_review_threads` promises: drawn from and covering the root and child comments, exact with unique ids, complete without parent loops |
| Comments.ValidateReviewEvent | src/github/comments.rs:250-257 | the event is accepted exactly when it is COMMENT, APPROVE or REQUEST_CHANGES, unchanged; any other is the invalid-event error naming it |
| Comments.SubmitReviewOutcome | src/github/comments.rs:242-289 | an invalid event fails before any request; a valid one sends a request and succeeds exactly when the returned state is the one the event expects |
| Comments.ExpectedStateInjective | src/github/comments.rs:272-277 | the three events expect three distinct review states |
| Comments.KeepSummaries | src/github/comments.rs:348-357 | the kept reviews are an order-preserving subsequence holding exactly the reviews with a non-blank body |
| Comments.Chained | src/github/comments.rs:137-160 | threads, then issue comments, then summaries, each wrapped as its entry kind, in order |
| Comments.SortStable | src/github/comments.rs:162 | the sort by time is a permutation of its input |
| Comments.SortStableOrdered | src/github/comments.rs:162 | the sort leaves times non-decreasing, and entries of equal time in their original order |
| Comments.SortTaggedEntries | src/github/comments.rs:137-162 | sorting keeps the length, and each sorted entry is the chained entry at its recorded position with its own time |
| Comments.MergeByTimeSpec | src/github/comments.rs:137-175 | the merged list is the chained list rearranged: times never decrease and entries of equal time keep their chained order |
| Comments.AssemblePullRequestData | src/github/comments.rs:120-175 | refs and shas are copied, the changed paths are a sorted permutation of the listed ones, and the comments are the merge by time |
| PendingComments.SaturatingIncrement | src/app/state.rs:1279-1283 | the id counter steps by one and stops at `u64::MAX` |
| PendingComments.Bounds | src/app/state.rs:1858-1862 | the inclusive range holds both given ends, whichever order they come in; with no start line it is the one line |
| PendingComments.NextCommentableRow | src/app/state.rs:1940-1960 | a result is the next (down) or previous (up) row, inside the rows and commentable on that side; no result exactly when that neighbour is missing or not commentable |
| PendingComments.PartitionPointSpec | src/app/state.rs:1922-1924 | the partition point splits the starts into a prefix at most the row and a first start past it |
| PendingComments.HunkIndexForRowSpec | src/app/state.rs:1914-1938 | no hunk exactly when the file has none or the row precedes the first; otherwise the hunk starts at or before the row and the next hunk starts after it; on increasing starts it is the last start at most the row |
| PendingComments.FileIndexOf | src/app/state.rs:1873 | the first file with the comment's path, or none when no file has it |
| PendingComments.PendingCommentMatchesCurrentDiff | src/app/state.rs:1869-1898 | the counting loop with early exit answers exactly the specification: enough commentable rows on the side carry a line of the range |
| PendingComments.CountAtLeastCovered | src/app/state.rs:1883-1894 | the rows counted are at least the number of distinct lines they cover |
| PendingComments.FullyCoveredMatches | src/app/state.rs:1869-1898 | a comment whose every line is still carried by a commentable row of its file matches the current diff, so is not outdated |
| PendingComments.AbsentFileNeverMatches | src/app/state.rs:1873-1875 | a comment on a path the diff no longer has never matches |
| PendingComments.FirstRowIn | src/app/state.rs:1900-1912 | the first row whose line on the comment's side lies in its range, or none when no row has one |
| PendingComments.SelectedRange | src/app/state.rs:1064-1069 | no range without an anchor; otherwise anchor and cursor, smaller first |
| PendingComments.CommentSide | src/app/state.rs:1290-1304 | a side only on a non-context row that has a line on it, right preferred; left only when the row has no right line |
| PendingComments.ClampedRange | src/app/state.rs:1314-1318 | the selected range (or the cursor row), both ends clamped to the last row, in order |
| PendingComments.LinesOfSpec | src/app/state.rs:1320-1325 | the collected lines are exactly the lines the rows carry on that side |
| PendingComments.CommentLinesSpec | src/app/state.rs:1306-1336 | the comment range runs from the smallest to the largest line the clamped selected rows carry on that side, both carried by some row; none when no selected row has a line there |
| PendingComments.FirstCovering | src/app/state.rs:1172-1184 | the first staged comment on the file's path whose range holds the cursor row's line on its side, or none |
| PendingComments.IndexOfId | src/app/state.rs:1207-1213 | the first staged comment with that id, or none |
| PendingComments.IndexOfAnchor | src/app/state.rs:1258-1263 | the first staged comment with exactly that path, side, line and start line: no earlier one has that anchor, and none is found exactly when no staged comment has it |
| PendingComments.UpsertFrame | src/app/state.rs:1224-1288 | a blank body is refused with "comment is empty"; every refusal changes nothing; a success clears the anchor and either rewrites one body or appends, keeping every earlier comment's id and anchor |
| PendingComments.UpsertAppend | src/app/state.rs:1265-1284 | an append adds one comment with the counter as id, the selected path, side and range and the trimmed body; the counter steps, the cursor was on no staged comment and the new range meets no staged range on that side |
| PendingComments.UpsertEditsHovered | src/app/state.rs:1245-1256 | with the cursor on a staged comment the upsert rewrites only that comment's body, keeps the counter and clears the anchor |
| PendingComments.UpsertOverlapRejected | src/app/state.rs:1272-1273 | a new range meeting a staged range on the same path and side is refused with "selection overlaps an existing pending comment" and nothing changes |
| PendingComments.UpsertKeepsNoOverlap | src/app/state.rs:1224-1288 | staged ranges on one path and side never overlap, and an upsert keeps that |
| PendingComments.UpsertKeepsFreshIds | src/app/state.rs:1274-1283 | ids stay distinct and below the counter |
| PendingComments.RemoveSelectedSpec | src/app/state.rs:1203-1222 | a comment is removed exactly when the cursor is on one; only that comment goes, the rest keep order and the anchor clears; otherwise nothing changes |
| PendingComments.KeepRestorable | src/app/state.rs:1117-1124 | the kept comments are, in order, exactly those with a non-blank body on a changed file |
| PendingComments.MaxIdSpec | src/app/state.rs:1137-1141 | the maximum id bounds every id and is some comment's id |
| PendingComments.RestoreSpec | src/app/state.rs:1112-1153 | the restored list is the kept comments in order; the counter is 1 for none and above every kept id |
| PendingComments.KeepReplyDraftsSpec | src/app/state.rs:1126-1134 | the reply drafts kept are exactly those keyed by a review thread of the comment list with a non-blank body, bodies unchanged |
| PendingComments.ReplyCountSpec | src/app/state.rs:1147-1152 | the reply count reported is the number of kept reply drafts |
| PendingComments.ToggledAnchorSpec | src/app/state.rs:1071-1088 | a set anchor is cleared; otherwise one is set, at the cursor, exactly on a commentable row inside a hunk and outside every staged range |
| PendingComments.AnchoredMoveSpec | src/app/state.rs:1380-1449 | while anchored, a move stays put or goes one row in its direction onto a commentable row of the same side, in the anchor's hunk and under no staged comment |
| PendingComments.MoveDownInFile | src/app/state.rs:1380-1400 | moving down never leaves the rows of a non-empty file |
| PendingComments.KeepVisibleSpec | src/app/state.rs:1506-1521 | after scrolling a cursor row that fits a `u16` is inside the viewport; a visible row does not scroll; the offset stays a `u16` |
| PendingComments.CollectLocationsSpec | src/app/state.rs:1679-1695 | the collected locations are exactly the locations of the staged comments that are shown somewhere |
| PendingComments.SortLocsSpec | src/app/state.rs:1697-1699 | sorting by (file, row, id) gives a sorted permutation |
| PendingComments.DedupLocs | src/app/state.rs:1700 | the last kept key is the input's last key |
| PendingComments.DedupIncreasing | src/app/state.rs:1700 | on sorted input the kept keys strictly increase |
| PendingComments.DedupMembers | src/app/state.rs:1700 | every kept location comes from the input and every input key is kept |
| PendingComments.PendingLocationsSpec | src/app/state.rs:1674-1702 | the jump targets have strictly increasing (file, row) keys; each is a staged comment's location and every shown comment's key is among them |
| PendingComments.FirstAfter | src/app/state.rs:1030-1034 | the first location after the cursor, or none |
| PendingComments.LastBefore | src/app/state.rs:1045-1050 | the last location before the cursor, or none |
| PendingComments.JumpTargetsSpec | src/app/state.rs:1023-1054 | the next target is the nearest location after the cursor, wrapping to the first; the previous is the nearest before, wrapping to the last |
| ReviewScreen.KeyAfterJoin | src/app/state.rs:1741-1751 | after k rounds of the loop the key is the first k path segments joined by '/' and is never empty |
| ReviewScreen.KeysUpToSpec | src/app/state.rs:1741-1751 | the keys built by the first k rounds are exactly the joins of the first 1 to k segments |
| ReviewScreen.AncestorKeysSpec | src/app/state.rs:1735-1751 | the keys removed for a file are exactly its enclosing directories, the joins of its first 1 to n-1 segments |
| ReviewScreen.FirstRowOfFile | src/app/state.rs:1714-1721 | the first tree row showing the file, or none when no row shows it |
| ReviewScreen.FirstHunkScroll | src/app/state.rs:1567-1574 | the scroll is a `u16`; when non-zero it is the file's first hunk start |
| ReviewScreen.RemoveKeepsInvariants | src/app/state.rs:1213-1218 | dropping one staged comment keeps ids fresh and ranges apart |
| ReviewScreen.ReviewScreenState.constructor | src/app/state.rs:393-430 | the summary takes the loaded head commit; the diff view starts reset; nothing staged and the first id is 1 |
| ReviewScreen.ReviewScreenState.SetData | src/app/state.rs:756-766 | reports whether the head commit changed, moves the summary to the new head and keeps staged comments and reply drafts |
| ReviewScreen.ReviewScreenState.ClearDiff | src/app/state.rs:769-773 | no diff, no error, and the diff view is back at its reset state |
| ReviewScreen.ReviewScreenState.ClearReplyDraft | src/app/state.rs:624-626 | only that thread's draft reply is forgotten |
| ReviewScreen.ReviewScreenState.ToggleDiffSelectionAnchor | src/app/state.rs:1071-1088 | the anchor becomes the toggled anchor of the cursor, whose meaning `PendingComments.ToggledAnchorSpec` states |
| ReviewScreen.ReviewScreenState.ClearDiffSelectionAnchor | src/app/state.rs:1090-1092 | no anchor |
| ReviewScreen.ReviewScreenState.ClearPendingReviewComments | src/app/state.rs:1106-1110 | nothing staged, ids restart at 1, no anchor, and the staging invariant holds |
| ReviewScreen.ReviewScreenState.ApplyRestoredDrafts | src/app/state.rs:1112-1153 | the staged list becomes the restorable comments, the counter one above the largest kept id, the reply drafts those of live threads with a body; the counts returned are their numbers |
| ReviewScreen.ReviewScreenState.PendingReviewCommentIsOutdated | src/app/state.rs:1155-1160 | outdated exactly when a diff is loaded and the comment no longer matches it |
| ReviewScreen.ReviewScreenState.RemoveSelectedPendingReviewComment | src/app/state.rs:1203-1222 | the new list and anchor are the removal the specification describes, and the staging invariant is kept |
| ReviewScreen.ReviewScreenState.SelectedDiffCommentLines | src/app/state.rs:1306-1336 | the collecting loop and sort give exactly the specified comment range |
| ReviewScreen.ReviewScreenState.UpsertPendingReviewCommentFromSelection | src/app/state.rs:1224-1288 | result, staged list, counter and anchor are those of the specified upsert, and the staging invariant is kept while the counter is below `u64::MAX` |
| ReviewScreen.ReviewScreenState.KeepSelectedLineVisible | src/app/state.rs:1506-1521 | the scroll becomes the one that brings the cursor into view |
| ReviewScreen.ReviewScreenState.SetDiffViewportHeight | src/app/state.rs:1523-1525 | the height is the given one, never below one row |
| ReviewScreen.ReviewScreenState.MoveSelectedDiffLineDown | src/app/state.rs:1380-1419 | the cursor takes its next row under the anchored-move rule; scroll resets without a non-empty file, otherwise follows the cursor |
| ReviewScreen.ReviewScreenState.MoveSelectedDiffLineUp | src/app/state.rs:1421-1449 | the cursor takes its previous row under the anchored-move rule and the scroll follows it |
| ReviewScreen.ReviewScreenState.SetSelectedDiffFile | src/app/state.rs:1555-1565 | re-selecting the current file changes nothing; another file starts at its first hunk, hunk 0, no anchor |
| ReviewScreen.ReviewScreenState.RecomputeDiffTreeRowsCache | src/app/state.rs:1787-1800 | no rows without a diff; collapsed tree rows with a blank search, otherwise the filtered fully expanded rows |
| ReviewScreen.ReviewScreenState.ExpandAncestors | src/app/state.rs:1735-1751 | exactly the enclosing directory keys are removed from the collapsed set; reports whether any of them was collapsed |
| ReviewScreen.ReviewScreenState.EnsureDiffFileExpanded | src/app/state.rs:1724-1756 | with a blank search and a known file its enclosing directories are un-collapsed and the rows recomputed when that changed anything; otherwise nothing changes |
| ReviewScreen.ReviewScreenState.MoveCursorTo | src/app/state.rs:1704-1712 | the file and row are selected with no anchor; the hunk is the row's hunk; the row is scrolled into view |
| ReviewScreen.ReviewScreenState.SelectTreeRowOfFile | src/app/state.rs:1714-1721 | the tree selection moves to the file's first row when the tree shows it |
| ReviewScreen.ReviewScreenState.JumpToPendingCommentLocation | src/app/state.rs:1704-1722 | expands the file's directories, then moves cursor and tree selection to the location |
| ReviewScreen.ReviewScreenState.JumpNextPendingReviewComment | src/app/state.rs:1023-1037 | jumps exactly when something staged can be located, to the next target; otherwise nothing changes |
| ReviewScreen.ReviewScreenState.JumpPrevPendingReviewComment | src/app/state.rs:1039-1054 | jumps exactly when something staged can be located, to the previous target; otherwise nothing changes |
| Order.SortStringsSpec | src/github/comments.rs:124-129 | the sorted changed paths are a permutation of the listed ones in byte-wise string order |
| AppSearch.TogglesCycle | src/app/state.rs:174-200 | each toggle moves to a different setting and comes back after visiting every one: scope after 3 steps, status after 5, sort after 2 |
| AppSearch.StatusFiltersPartition | src/app/state.rs:282-320 | draft and ready split the pulls in two, approved and rejected never both hold, and the "all" filters let every pull through |
| AppSearch.ScopeIgnoresViewerCase | src/app/state.rs:282-296 | lowering the viewer's login first does not change the scope test, which compares ignoring ASCII case |
| AppSearch.FilteredMembers | src/app/state.rs:142-151 | the filter keeps exactly the ranked indices that name a pull passing the scope and status tests |
| AppSearch.InsertNewestOrdered | src/app/state.rs:153-167 | inserting into a newest-first list keeps it newest first |
| AppSearch.NewestFirstSpec | src/app/state.rs:153-167 | the sort by timestamp only reorders the results and leaves them newest first |
| AppSearch.InsertNewestWithKey | src/app/state.rs:153-167 | inserting an entry passes over newer entries only, so among the entries of its timestamp it comes first and the others keep their order |
| AppSearch.NewestFirstStable | src/app/state.rs:153-167 | the sort is stable: for every timestamp, the entries carrying it appear in the same relative order as before |
| AppSearch.SearchResultsSpec | src/app/state.rs:136-172 | the results are the passing ranked indices, each as often as ranked, newest first by the chosen timestamp, with ranked order kept among equal timestamps |
| AppSearch.ClampSelected | src/app/state.rs:169-171 | a selection still in range is kept, otherwise it moves to the last result, and 0 when there are none |
| AppSearch.AppState.constructor | src/app/state.rs:46-64 | the search screen with no pulls, an empty unfocused search box, every filter off and the updated-at sort |
| AppSearch.AppState.OpenReview | src/app/state.rs:241-244 | a fresh review screen for the pull and data, with no pending comments or reply drafts and the next id 1, shown at once |
| AppSearch.AppState.RecomputeSearch | src/app/state.rs:136-172 | the results become the filtered ranked indices stably sorted newest first (see `SearchResultsSpec`) and the selection is clamped into them |
| AppSearch.AppState.SetPullRequests | src/app/state.rs:125-129 | the pulls are replaced, the results recomputed and the selection reset to 0 |
| AppSearch.AppState.SetViewerLogin | src/app/state.rs:131-134 | the login is replaced and the results recomputed with the selection clamped |
| AppSearch.AppState.ToggleSearchScope | src/app/state.rs:174-181 | the scope moves All, Author, Reviewer, All, and the results are recomputed |
| AppSearch.AppState.ToggleSearchStatusFilter | src/app/state.rs:183-192 | the status filter moves All, Draft, Ready, Approved, Rejected, All, and the results are recomputed |
| AppSearch.AppState.ToggleSearchSort | src/app/state.rs:194-200 | the sort flips between updated-at and created-at, and the results are recomputed |
| AppSearch.AppState.SelectedSearchPull | src/app/state.rs:202-205 | the pull named by the selected result, present exactly when both the result and the pull exist |
| AppSearch.AppState.SearchMoveDown | src/app/state.rs:223-230 | one result further, stopping at the last; 0 when there are no results |
| AppSearch.AppState.SearchMoveUp | src/app/state.rs:232-239 | one result back, stopping at the first; 0 when there are no results |
| AppSearch.AppState.FocusSearch | src/app/state.rs:207-209 | the search box is focused and its query unchanged |
| AppHandlers.ScrollDelta | src/app/mod.rs:532-540 | wheel up scrolls up three lines, wheel down down three; any other mouse event does not scroll |
| AppHandlers.HandleSearchInputEditKey | src/app/mod.rs:542-558 | Esc and Enter unfocus the box and keep the query; Backspace pops one character; a printable character is appended; anything else changes nothing; the answer says whether the query was edited |
| AppHandlers.MutationApplied | src/app/mod.rs:363-396 | the operation ends; a failure only reports its error and keeps every draft; a success for the open review forgets the posted reply draft, the staged comments only when they were submitted, and takes the refreshed data and the review route |
| AppHandlers.RefreshOpenReview | src/app/mod.rs:276-291 | the open review takes the data with a reset diff view, keeps staged comments and reply drafts, and warns with their count when the head commit moved under them |
| AppHandlers.OpenReviewWithDrafts | src/app/mod.rs:294-309 | a fresh review screen is opened and restored from the stored drafts when a store exists; a load error is reported as "failed to load saved draft: …" |
| AppHandlers.PullRequestDataLoaded | src/app/mod.rs:268-315 | a failure reports its error and changes nothing else; data for the open review refreshes it; data for another pull opens it with its saved drafts, showing no error or "failed to load saved draft: {err}" when the stored drafts fail to load; a refresh shows no error or the outdated warning; a success forgets the last persisted signature |
| AppHandlers.ForgetSavedDrafts | src/app/mod.rs:413-420 | with nothing left to save, the saved file is deleted when this session wrote one, a delete failure is reported, and the signature is forgotten |
| AppHandlers.SaveChangedDrafts | src/app/mod.rs:424-434 | nothing is written when the signature is unchanged; a failed write reports and keeps the old signature; a successful write records the signature and leaves a file that loads back the same drafts |
| AppHandlers.PersistReviewDrafts | src/app/mod.rs:398-434 | without an open review the signature is forgotten; with no drafts the saved file is cleared; otherwise the drafts are saved only when their signature changed |
| AppHandlers.HasNonBlankReply | src/app/mod.rs:409-412 | true exactly when some reply draft has a non-blank body |
| AppHandlers.ApiEvent | src/app/state.rs:332-338 | the event name sent is one the review API accepts |
| AppHandlers.ToSubmitComment | src/app/mod.rs:1154-1164 | path, body, line and side carry over; the start side is present exactly when a start line is, and is the comment's own side |
| AppHandlers.SubmitComments | src/app/mod.rs:1151-1165 | one submission comment per staged comment, in staging order |
| AppHandlers.OpenSubmitReviewEditorAndSubmit | src/app/mod.rs:1137-1200 | nothing while busy or without a review; a cancelled edit does nothing; an editor failure is reported; an empty review with nothing staged is refused; otherwise the submission carries the trimmed text, every staged comment and the head commit |
| ThreadNodes.GroupKeysRecognised | src/app/state/thread_nodes.rs:52-70 | a review-group key is recognised as one, and thread and reply keys never are |
| ThreadNodes.ThreadKeySpec | src/app/state/thread_nodes.rs:52-62 | a "thread:" key exactly when the thread id is present and non-blank, giving back the trimmed id; otherwise the root comment id keys the thread, so different roots give different keys |
| ThreadNodes.ReplyKeysFollowIds | src/app/state/thread_nodes.rs:12 | different reply comments get different keys |
| ThreadNodes.EdgesArePreorder | src/app/state/thread_nodes.rs:10-22 | the reply nodes list the replies of the subtree in preorder |
| ThreadNodes.EdgesShape | src/app/state/thread_nodes.rs:10-22 | each reply node joins a thread to one of its own replies; direct replies sit at the given depth and deeper ones one level below their parent, which comes earlier |
| ThreadNodes.ReplyRowsSpec | src/app/state/thread_nodes.rs:4-23 | one reply node per reply below the thread, in preorder, keyed by its comment id, rooted at the root key, showing its parent's resolution state at its depth |
| ThreadNodes.ReplyRowsUniform | src/app/state/thread_nodes.rs:16 | when the whole thread shares one resolution state every reply node shows it |
| ThreadNodes.AppendReplyNodes | src/app/state/thread_nodes.rs:4-23 | the loop with its recursive calls appends exactly the reply nodes of the thread |
| ThreadNodes.AppendThreadNodes | src/app/state/thread_nodes.rs:25-50 | the thread is recorded under its key; its node is appended, then its reply nodes unless the key is collapsed |
| ThreadNodes.ThreadRowsSpec | src/app/state/thread_nodes.rs:25-50 | the thread node comes first as its own root at the given depth; a collapsed thread adds nothing more; otherwise one node per reply follows, deeper and rooted at the thread |
| ThreadNodes.EdgesDeeper | src/app/state/thread_nodes.rs:21 | every reply is shown at least at the depth of the direct replies |
| ThreadSearch.ContainsIgnoreCaseOfLowered | src/app/state/thread_search.rs:45-47 | lowering the value first does not change the answer |
| ThreadSearch.ContainsIgnoreCaseOfContains | src/app/state/thread_search.rs:45-47 | a lowercase query occurring in the value as written is found |
| ThreadSearch.FilterThreadNodes | src/app/state/thread_search.rs:4-33 | the loop computes exactly the ancestor-keeping thread search |
| ThreadSearch.ThreadSearchSpec | src/app/state/thread_search.rs:4-43 | a blank query keeps everything; otherwise an order-preserving subsequence in which a node appears exactly when it matches or sits on a match's parent stack |
| ThreadSearch.NonMatchingWithoutMatchBelowDropped | src/app/state/thread_search.rs:18-33 | a node that neither matches nor is a parent of a match is dropped |
| TreeFilter.Cut | src/app/state/tree_filter.rs:25-27 | the stack is popped to at most the depth and stays a prefix; a short enough stack is untouched |
| TreeFilter.Parents | src/app/state/tree_filter.rs:25-27 | the parent stack when a row is examined is no deeper than the row |
| TreeFilter.IncludedBySpec | src/app/state/tree_filter.rs:29-34 | a key is marked exactly when it is a hit's key or on a hit's parent stack |
| TreeFilter.StackHoldsEarlierRows | src/app/state/tree_filter.rs:24-37 | the parent stack only holds keys of earlier rows |
| TreeFilter.KeepIncluded | src/app/state/tree_filter.rs:39-43 | the rows whose key is marked, in order |
| TreeFilter.NormalizeQuery | src/app/state/tree_filter.rs:16 | lowering keeps the trimmed length |
| TreeFilter.VisitRow | src/app/state/tree_filter.rs:25-36 | one loop turn takes the stack and the marks to those after the row |
| TreeFilter.KeepMarked | src/app/state/tree_filter.rs:39-43 | the final pass keeps exactly the marked rows in order |
| TreeFilter.WalkAndKeep | src/app/state/tree_filter.rs:21-43 | the whole walk computes the specified selection |
| TreeFilter.FilterWithAncestors | src/app/state/tree_filter.rs:3-44 | a blank query keeps every row; otherwise the walk's selection with the trimmed, lowercased query |
| TreeFilter.SelectedSpec | src/app/state/tree_filter.rs:21-43 | the result is an order-preserving subsequence; a row is kept exactly when its key is a hit's key or on a hit's parent stack; every hit and its parents are kept |
| TreeFilter.UnmarkedDropped | src/app/state/tree_filter.rs:39-43 | a row that is no hit and no hit's parent is dropped |
| SearchInput.Pop | src/app/state/search_input.rs:32-34 | the last character goes; an empty string stays empty |
| SearchInput.PopAfterPush | src/app/state/search_input.rs:28-34 | popping right after a push gives the string back |
| SearchInput.PopIsPrefix | src/app/state/search_input.rs:32-34 | what is left is a prefix one shorter (or empty) |
| SearchInput.SearchInputState.constructor | src/app/state/search_input.rs:1-5 | empty and unfocused |
| SearchInput.SearchInputState.Focus | src/app/state/search_input.rs:8-10 | focused, query unchanged |
| SearchInput.SearchInputState.Unfocus | src/app/state/search_input.rs:12-14 | unfocused, query unchanged |
| SearchInput.SearchInputState.PushChar | src/app/state/search_input.rs:28-30 | one character more at the end, focus unchanged |
| SearchInput.SearchInputState.Backspace | src/app/state/search_input.rs:32-34 | the query loses its last character, nothing on an empty query; focus unchanged |
| SearchInput.SearchInputState.PushThenBackspace | src/app/state/search_input.rs:28-34 | typing a character and deleting it leaves the state as it was |
| DiffTree.ChildOrPutChild | src/app/state/diff_tree.rs:90 | reading a directory entry just stored gives what was stored |
| DiffTree.PutChildIncreasing | src/app/state/diff_tree.rs:6-9 | storing a child keeps the directory's names strictly increasing, as in a `BTreeMap` |
| DiffTree.PutChildFiles | src/app/state/diff_tree.rs:90 | storing a child exchanges the files of the entry it replaces for its own |
| DiffTree.PathSegments | src/app/state/diff_tree.rs:74-77 | the segments are non-empty and hold no '/' |
| DiffTree.InsertAtFiles | src/app/state/diff_tree.rs:73-93 | inserting a path adds exactly that one file index to the tree |
| DiffTree.InsertAtOrdered | src/app/state/diff_tree.rs:88-92 | inserting a path keeps every directory's names in order |
| DiffTree.InsertDiffPathSpec | src/app/state/diff_tree.rs:73-93 | inserting a path adds exactly its index and keeps the tree ordered |
| DiffTree.TreeOfSpec | src/app/state/diff_tree.rs:15-19 | after the insertion loop every diff file is in the tree exactly once and the tree is ordered |
| DiffTree.SortTreeFiles | src/app/state/diff_tree.rs:95-101 | sorting keeps the same files |
| DiffTree.SortTreeOrdered | src/app/state/diff_tree.rs:95-101 | sorting keeps the directory names in order |
| DiffTree.SortTreeSorted | src/app/state/diff_tree.rs:95-101 | after sorting every directory's files are in path order |
| DiffTree.JoinPath | src/app/state/diff_tree.rs:171-177 | the segment alone under an empty parent, otherwise parent, '/', segment |
| DiffTree.ChainEndFiles | src/app/state/diff_tree.rs:157-166 | the chain stops at a directory that is not a file-less single-child one, and that directory holds every file of the chain |
| DiffTree.CompressFromChain | src/app/state/diff_tree.rs:153-168 | compressing extends the label and the key by '/' and each name of the chain and stops at its end |
| DiffTree.CompressDirectory | src/app/state/diff_tree.rs:148-169 | the loop computes the specified compression |
| DiffTree.CompressSpec | src/app/state/diff_tree.rs:148-169 | the label is the chain's names joined by '/', the key is that label under the parent key, and the directory continued with is not file-less single-child |
| DiffTree.LastSegmentSpec | src/app/state/diff_tree.rs:131-136 | a file label is the suffix of its path after the last '/', holding no '/' |
| DiffTree.AppendDiffTreeRows | src/app/state/diff_tree.rs:103-146 | appends exactly the specified rows of the directory |
| DiffTree.AppendDirectoryRows | src/app/state/diff_tree.rs:111-127 | the directory loop appends each child's block in name order |
| DiffTree.AppendDirectoryBlock | src/app/state/diff_tree.rs:112-126 | one turn appends the compressed directory row, then its contents one level deeper unless collapsed |
| DiffTree.AppendFileRows | src/app/state/diff_tree.rs:129-145 | the file loop appends one row per file, in order |
| DiffTree.Paths | src/app/state/diff_tree.rs:17 | the diff's file paths by index |
| DiffTree.BuildDiffTree | src/app/state/diff_tree.rs:15-19 | the insertion loop builds the tree of the paths |
| DiffTree.BuildDiffTreeRows | src/app/state/diff_tree.rs:11-25 | the rows are those of the sorted tree flattened from the root at depth 0 |
| DiffTree.RowsNested | src/app/state/diff_tree.rs:103-146 | a directory's rows form an outline rooted at its depth |
| DiffTree.RowsShaped | src/app/state/diff_tree.rs:103-146 | every row carries what its kind promises: directories have no file and their collapsed flag from the set; files have their index, their label and no collapse |
| DiffTree.RowsFiles | src/app/state/diff_tree.rs:103-146 | the files shown are files of the directory; with nothing collapsed, all of them, once each |
| DiffTree.DiffTreeRowsSpec | src/app/state/diff_tree.rs:11-25 | the rows form an outline from depth 0, carry what their kind promises, show only diff files, and with nothing collapsed show every file exactly once |
| DiffTree.CollapsedHidesContents | src/app/state/diff_tree.rs:124-126 | the row after a collapsed directory is no deeper than it |
| DiffTree.ExpandAll | src/app/state/diff_tree.rs:66-69 | every row with its collapsed flag cleared, nothing else changed |
| DiffTree.FilterDiffTreeRows | src/app/state/diff_tree.rs:27-71 | the walk and the final pass compute exactly the specified filter |
| DiffTree.ExpandRows | src/app/state/diff_tree.rs:63-70 | the final map clears every kept row's collapsed flag |
| DiffTree.BlankFilterKeepsRows | src/app/state/diff_tree.rs:32-35 | a blank query shows the rows as they are |
| DiffTree.FilterShowsMatches | src/app/state/diff_tree.rs:40-70 | every file row whose path contains the query, ignoring ASCII case, is shown with the directories above it |
| DiffTree.FilterShowsOnlyMatchContext | src/app/state/diff_tree.rs:40-70 | nothing shown is collapsed, and every row shown is a matching file row or a directory above one |
| DiffTree.ParentsAreDirectories | src/app/state/diff_tree.rs:41-48 | the filter's parent stack only holds keys of earlier directory rows |
| Drafts.ToPersistedSide | src/app/drafts.rs:217-224 | left maps to the persisted left, right to right |
| Drafts.FromPersistedSide | src/app/drafts.rs:226-233 | the persisted left maps back to left, right to right |
| Drafts.ConversionRoundTrip | src/app/drafts.rs:184-233 | converting a staged comment to its record and back, or a record to a comment and back, loses and changes nothing |
| Drafts.AllToPersisted | src/app/drafts.rs:75-80 | one record per staged comment |
| Drafts.AllFromPersisted | src/app/drafts.rs:63-67 | one staged comment per record |
| Drafts.ListRoundTrip | src/app/drafts.rs:63-80 | a list converted to records and back is the same list |
| Drafts.SanitizeChar | src/app/drafts.rs:152-158 | every character becomes an allowed one (ASCII alphanumeric, '-', '_' or '.') |
| Drafts.SanitizeSpec | src/app/drafts.rs:149-160 | sanitizing keeps the length, leaves only allowed characters, keeps the allowed ones, is idempotent and leaves no '/' |
| Drafts.FileNameSpec | src/app/drafts.rs:139-147 | the draft file name is one path component, and two pulls of one repository get different files |
| Drafts.LoadSpec | src/app/drafts.rs:42-72 | no file gives nothing; an unreadable or unparsable file is an error naming its full path and stays; a file of another version is deleted and gives nothing, or, when the deletion is refused, is the "failed to delete outdated draft file {path}" error and stays; a current-version file loads as its converted comments and its reply drafts, with the saved head sha reported exactly when it differs from the pull's, and the store unchanged; no other file changes |
| Drafts.SaveThenLoad | src/app/drafts.rs:42-99 | loading what was just saved gives back the same staged comments and reply drafts with no head-sha warning |
| Drafts.SaveThenLoadAtNewHead | src/app/drafts.rs:42-99 | drafts saved at one head and loaded after the pull moved to another come back in full, with the head they were saved at reported |
| Drafts.ClearThenLoad | src/app/drafts.rs:101-109 | after clearing, the pull loads as nothing saved and other files are untouched |
| Drafts.SaveKeepsOtherPulls | src/app/drafts.rs:74-99 | saving one pull never changes what another pull of the repository loads |
| Drafts.AppendCommentParts | src/app/drafts.rs:120-130 | the loop appends each staged comment's `id:path:side:line:start:body|` part in order |
| Drafts.AppendReplyParts | src/app/drafts.rs:133-135 | the loop appends `key:value|` for each sorted reply draft in order |
| Drafts.DraftSignature | src/app/drafts.rs:111-137 | the signature is the header, the comment parts and the key-sorted reply parts |
| Drafts.SortedByUnique | src/app/drafts.rs:131-132 | two key-sorted orders of the same map entries are the same sequence |
| Drafts.SignatureOrderIndependent | src/app/drafts.rs:131-136 | the signature does not depend on the order the reply map is enumerated in |
| Drafts.MapEntries | src/app/drafts.rs:131 | the entries listed are exactly the map's, each once |
| Drafts.SignatureOfEnumeration | src/app/drafts.rs:111-137 | on any enumeration of the reply map the signature is the map's own signature |
| ReviewDiffView.ClippedSpec | src/ui/screens/review_diff.rs:330-337 | clipping keeps exactly the covered positions below the visible length, in non-empty ranges |
| ReviewDiffView.ClipAndMergeRanges | src/ui/screens/review_diff.rs:322-355 | nothing for no ranges or no visible text; otherwise sorted, separated, non-empty ranges within the visible length covering exactly the visible positions the input covers |
| ReviewDiffView.GappedSorted | src/ui/screens/review_diff.rs:343-352 | merged ranges are sorted by start |
| ReviewDiffView.RangesCoverVisibleContent | src/ui/screens/review_diff.rs:357-377 | false for no visible text; true only when every visible position is highlighted, and always then on ranges sorted by start |
| ReviewDiffView.CoversPrefix | src/ui/screens/review_diff.rs:364-374 | positions covered by the ranges walked so far are covered by all of them |
| ReviewDiffView.UncoveredGap | src/ui/screens/review_diff.rs:366-368 | where the walk stops early, on sorted ranges, the position reached is not highlighted |
| ReviewDiffView.MaskHighlightRanges | src/ui/screens/review_diff.rs:379-389 | one flag per column, set exactly where some range lies |
| ReviewDiffView.CellStyles | src/ui/screens/review_diff.rs:401-414 | one style per character |
| ReviewDiffView.FinishRuns | src/ui/screens/review_diff.rs:435-439 | closing the last run after every character gives runs that spell the text in each character's own style |
| ReviewDiffView.RenderSyntaxCells | src/ui/screens/review_diff.rs:391-442 | no runs for no characters; otherwise maximal runs of equal style that spell the characters, each in its own style |
| ReviewDiffView.MatchesRowIsCovers | src/ui/screens/review_diff.rs:299-320 | the pane's marker test is exactly coverage of the row's line on the comment's side by the comment's range |
| ReviewDiffView.HatchedFiller | src/ui/screens/review_diff.rs:444-446 | one forward slash per column |
| ReviewDiffView.ColumnWidths | src/ui/screens/review_diff.rs:36-40 | the two columns share what remains after the gutter and separator, the right one taking the odd column |
| ReviewDiffView.RowLinesSpec | src/ui/screens/review_diff.rs:43-62 | one line per existing row of the window, in order; the marker is the cursor's on the cursor row, else a staged comment's, else the selection's, else blank |
| ReviewView.AlternatingHatchedFiller | src/ui/screens/review.rs:826-836 | one character per column, '╱' on even columns and '╲' on odd ones |
| ReviewView.LineHeight | src/ui/screens/review.rs:846-852 | an empty line takes one row; otherwise the fewest rows of the width that hold it |
| ReviewView.WrappedContentHeightBounds | src/ui/screens/review.rs:838-855 | nothing for a zero width; otherwise at least one row per line, and the rows hold the lines' total width |
| ReviewView.WrappedContentHeightAppend | src/ui/screens/review.rs:843-854 | the height of a block is the sum of the heights of its parts |
| Footer.SplitOn | src/ui/components/footer.rs:41 | splitting always gives at least one piece |
| Footer.JoinSplitOn | src/ui/components/footer.rs:40-45 | joining the pieces back with the separator gives the hint string back, so no text is lost by the split |
| Footer.NonEmptyTrimmed | src/ui/components/footer.rs:42-43 | every piece kept is non-empty and starts with no whitespace |
| Footer.FindChar | src/ui/components/footer.rs:85 | the first position of the character, or none when it does not occur |
| Footer.ParseHintTokenSpec | src/ui/components/footer.rs:82-96 | a token has a key exactly when, trimmed, it starts with '[' and holds a ']'; the key then runs to the first ']' and the description is the trimmed rest; otherwise the description is the whole trimmed token |
| Footer.TokenDisplayWidth | src/ui/components/footer.rs:98-108 | zero exactly for an empty token; key, space and description when both are present; otherwise the one that is present |
| Footer.HintTokensWidth | src/ui/components/footer.rs:40-45 | every token read from the hints has a positive width |
| Footer.FlattenLength | src/ui/components/footer.rs:51-79 | a layout of non-empty lines has no more lines than tokens |
| Footer.FitToken | src/ui/components/footer.rs:60-64 | a token that fits goes on the open line and the layout invariant holds |
| Footer.BreakLine | src/ui/components/footer.rs:66-72 | a token that does not fit closes the open line and opens a new one, its width capped at the line width |
| Footer.WrapHintTokens | src/ui/components/footer.rs:34-80 | no lines for empty hints; otherwise the lines hold every token in order, each line within the width unless it holds one wider token, and no token could have joined the line before |
| Footer.PlaceToken | src/ui/components/footer.rs:55-73 | one loop turn keeps the greedy layout invariant |
| Footer.FinishLayout | src/ui/components/footer.rs:75-77 | closing the last line gives a greedy layout holding every token |
| Footer.CloseLine | src/ui/components/footer.rs:66-69 | closing a non-empty line keeps the layout greedy |
| Footer.RequiredHeight | src/ui/components/footer.rs:10-13 | the height is the number of lines of a greedy layout of the hint tokens at the screen width (at least one column), at least one, cast to `u16`; one row for no hints, and otherwise between one and the token count |
| Footer.WrappedUnique | src/ui/components/footer.rs:34-80 | two greedy layouts of the same tokens at the same width are equal, so the layout and the footer height are determined by the hints and the width |
| Shared.BytePrefixSpec | src/ui/components/shared.rs:24-25 | the 16-byte prefix exists exactly when a character boundary lies at that byte, and is the characters ending there |
| Shared.ReplaceChar | src/ui/components/shared.rs:25 | same length; each occurrence of the character replaced and nothing else |
| Shared.ShortTimestampAscii | src/ui/components/shared.rs:23-28 | on ASCII input, the first 16 characters with 'T' replaced by a space, or the whole value when shorter |
| Shared.ShortPreview | src/ui/components/shared.rs:4-20 | the whitespace-collapsed text when its byte length fits; otherwise cut to the limit in characters, ending in "..." when the limit exceeds 3; never more characters than the limit |
| Markdown.MaxLineSpec | src/render/markdown.rs:254-261 | the largest line number bounds every line number on the side and, when positive, is one of them |
| Markdown.LastTextAtNone | src/render/markdown.rs:267-281 | a source line no row numbers stays empty |
| Markdown.LastTextAtLast | src/render/markdown.rs:268-281 | a source line holds the text of the last row numbered with it |
| Markdown.SourceLines | src/render/markdown.rs:267 | one source line per line number up to the largest |
| Markdown.BuildDiffSideSource | src/render/markdown.rs:253-286 | empty when no row has a line number on the side; otherwise the source lines joined by newlines with a final newline |
| Markdown.LargestLine | src/render/markdown.rs:254-261 | the result is the largest line number on the side, 0 when there is none |
| Markdown.FillLines | src/render/markdown.rs:267-282 | slot k ends up holding the text of the last row numbered k+1 on the side (line 0 writes slot 0), and "" when no row is |
| Markdown.PushSpan | src/render/markdown.rs:288-292 | the span goes at the end of the last line; no lines stay no lines |
| Markdown.PushNonemptyNewline | src/render/markdown.rs:294-299 | the lines end in an empty line, a new one only when the last line was not already empty |
| Markdown.PushNonemptyNewlineIdempotent | src/render/markdown.rs:294-299 | opening a new line twice opens it once |
| Markdown.PopStyleIfPossible | src/render/markdown.rs:301-305 | the top style goes unless it is the last one |
| Markdown.PushThenPop | src/render/markdown.rs:301-305 | popping undoes a push and never removes the base style |
| Markdown.ItemMarkers | src/render/markdown.rs:145-158 | one marker per item |
| Markdown.ItemMarkersCountUp | src/render/markdown.rs:137-158 | items of a numbered list count up from its start, items of a bulleted list get a dash, each indented by the nesting depth |
| Markdown.TrimTrailingEmptyLines | src/render/markdown.rs:227-229 | a prefix of at least one line; only empty lines were dropped; it ends in a non-empty line unless one line is left |
| Markdown.RenderEvent | src/render/markdown.rs:117-224 | an item starts a new line with its marker; a list pushes its state and its end pops it; text goes on the last line in the top style; only a code block start opens a code block |
| Markdown.CodeLines | src/render/markdown.rs:104-108 | each highlighted line indented by a dimmed two-space span |
| Markdown.CodeBlockEvent | src/render/markdown.rs:98-114 | only the block's end closes it; inside the block the lines do not change |
| Markdown.Render | src/render/markdown.rs:89-232 | at least one line, and no trailing empty line unless only one is left |
| ThreadRender.CommentLocationCases | src/render/thread.rs:192-203 | "(unknown path)" for a blank path; `path:start-end` for a range whose ends differ, `path:line` for a single line, the path alone without a line |
| ThreadRender.CommentLocationInjective | src/render/thread.rs:192-203 | on one non-blank path, equal locations name the same lines: same end line, both ranges or neither, same start line for a range |
| ThreadRender.SplitAtDash | src/render/thread.rs:199 | the digits on each side of the dash are read back unambiguously |
| ThreadRender.FirstPatchComment | src/render/thread.rs:142-154 | a comment found has a non-blank diff hunk |
| ThreadRender.FirstPatchIsFirstInPreorder | src/render/thread.rs:142-154 | the recursive search finds the first comment with a hunk in preorder of the thread |
| ThreadRender.FirstWithHunkAppend | src/render/thread.rs:147-151 | the first hit in a concatenation is the first hit of the front part, else of the back part |
| ThreadRender.SelectedPatchComment | src/render/thread.rs:132-140 | the selected review comment when it has a hunk, otherwise the thread's first comment with one; a result always has a hunk |
| ThreadRender.SelectedPatchNone | src/render/thread.rs:132-154 | no patch exactly when neither the selection nor any comment of the thread has a hunk |
| ThreadRender.FirstWithHunkNone | src/render/thread.rs:142-154 | the search finds nothing exactly when no comment has a hunk |
| ThreadRender.PrefixLines | src/render/thread.rs:239-249 | one line per line, each the dimmed prefix followed by the line's spans |
| ThreadRender.PendingReplySection | src/render/thread.rs:50-63 | a blank or missing draft shows only the empty-draft hint; otherwise the trimmed draft rendered and indented two columns, then the key hint |
| Config.ParseThemePreference | src/config.rs:164-172 | a rejected value gets the message "expected one of: auto, dark, light" |
| Config.ParseThemePreferenceSpec | src/config.rs:164-172 | accepted exactly when the normalized spelling (trimmed, ASCII-lowercased, '-' and ' ' as '_') is a preference's name, and then it is that preference |
| Config.NamesDistinct | src/config.rs:181-187 | the three names are distinct |
| Config.PreferenceRoundTrip | src/config.rs:164-187 | parsing a preference's name gives the preference back |
| Config.ParseAppConfig | src/config.rs:107-116 | a missing `theme.mode` is `Auto`; a present one is trimmed and parsed, accepted exactly when the preference parses, and a rejection reads "invalid value for `theme.mode`: {mode}" followed by the cause |
| Config.PersistedConfigRoundTrip | src/config.rs:81-87 | a saved preference loads back unchanged, and the default file's `auto` loads like a missing mode |
| Config.ParseThemeModeHint | src/config.rs:357-364 | light or dark exactly for those names, ignoring ASCII case and surrounding whitespace; nothing otherwise |
| Config.ResolveRuntimeThemeForMode | src/config.rs:68-79 | the mode is kept; the light palette exactly for light mode |
| Config.ResolveRuntimeTheme | src/config.rs:57-65 | a fixed preference decides the mode; `Auto` takes the detected mode or dark; the palette follows the mode |
| Config.Ansi256ToRgb | src/config.rs:341-343 | the first sixteen indices give the base colours |
| Config.CubeColour | src/config.rs:344-351 | index 16 + 36r + 6g + b of the cube is the colour of the r-th, g-th and b-th cube levels |
| Config.CubeIndexDecomposes | src/config.rs:344-351 | every cube index decomposes so, and every cube channel is one of the six levels |
| Config.GrayRamp | src/config.rs:353-354 | index 232 + k is the gray of level 8 + 10k |
| Config.ScaleChannelIsDivision | src/config.rs:317-319 | scaling is division by 257: 0 goes to 0 and 65535 to 255 |
| Config.ScaleChannelMonotone | src/config.rs:317-319 | scaling keeps the order of channel values |

## Left out

- Subprocesses, disk and network: git and difftastic runs, workspace and
  snapshot files, and every call to the hosting API are not modelled; their
  results (the difftastic file, the file texts, the fetched comments, the
  mutation outcomes) enter the model as plain inputs.
- The worker tasks and channels of `src/app/events.rs` are not modelled; each
  worker message is an input to the handlers, with the rule that only a
  submit asks to clear drafts and a result is Ok only when both the mutation
  and the refresh succeeded.
- The terminal, the event loop, key routing, the external editor and the
  browser are left out; an editor session is an input string (or an error).
- The draft store is its root directory and a map from file name to
  record: file reads, writes and deletions become map lookups and updates.
  A failed save or clear is an input of the handlers, and so is a refused
  deletion of an outdated draft during a load. A file that cannot be read
  or parsed is its own kind of entry. serde/TOML (de)serialisation is taken
  as a faithful abstract encoding, so records are stored as they are. The draft
  errors carry `anyhow`'s outermost context only, the way
  `{err}` prints them.
- `HashMap` iteration order is not modelled; where the code iterates a map,
  the model takes any enumeration and the change signature is proved not to
  depend on it.
- Fuzzy ranking is a library call; the ranked index list is an input of the
  search.
- The markdown parser and the syntax highlighter are library calls: the
  renderer takes a sequence of parser events and a highlighting function;
  styles are abstract.
- Floating point (the header's progress ratio, `theme_mode_from_rgb`, colour
  blending), `parse_colorfgbg_background_index` and terminal/environment
  theme detection are left out; the detected mode is an input.
- ratatui widgets and layout are left out; the helpers that compute what they
  draw are modelled.
- `insert_diff_path` and `sort_diff_tree_files` mutate the tree in place; the
  model builds and sorts the tree as values (`BTreeMap` children as a sorted
  association list), so in-place update is not captured.
- `src/ui/screens/review.rs` repeats the range, mask and cell helpers of
  `review_diff.rs`; they are modelled once, in `ReviewDiffView`.
- The markdown helpers `push_span`, `push_nonempty_newline` and
  `pop_style_if_possible` take `&mut Vec` arguments; they are functions on
  values here.
- PendingComments.HunkIndexForRowSpec: `partition_point` is modelled as the
  length of the longest prefix of hunk starts at or before the row. That is
  Rust's answer only when the starts are sorted, and nothing here proves they
  are: `build_diff_file` takes chunk starts in the order difftastic reports
  its chunks, and the model only shows that adjacent starts differ. The
  "last start at most the row" clause is therefore stated under an
  `Increasing` hypothesis that is assumed of the tool's output, not derived.
- The `u64` overflow of the list state's next index is not modelled.
- Comments.BuildReviewThreads: that every input comment is placed is stated
  only for inputs whose parent chains reach a root (`Acyclic`); a comment in
  a reply loop is never reached from a root and is dropped, as in the code.
  The exact trees and replies are stated for unique ids; with repeated ids
  only the weaker drawn-from and covering facts hold.
- AppSearch.ScopeIgnoresViewerCase: `PullRequestSummary::has_reviewer` has
  no body in the modelled sources; `AppSearch.HasReviewer` assumes it is an
  ASCII-case-insensitive match among the reviewer logins, and the lemma holds
  under that assumption only.
- Config.ParseAppConfig: the TOML layer is not modelled. The function starts
  from the optional `theme.mode` string, so the rejection of malformed TOML,
  of unknown keys (`deny_unknown_fields`, which is what turns away the legacy
  colour fields such as `border`) and its "failed to parse config TOML"
  context are not captured.
- `LoadOutcome`: `src/app/drafts.rs` gives the loaded variant a
  `saved_head_sha` field that the pattern at `src/app/mod.rs:297-300` does not
  bind (the two files come from different revisions); the model follows
  `drafts.rs` and carries the field.
- A draft file that cannot be read or parsed makes the load fail with
  an error, as the code does, rather than being treated as absent.
- PendingComments.RestoreSpec: the restored next id is stated only when every
  kept id is below `u64::MAX`.
- PendingComments.UpsertKeepsFreshIds: requires the id counter to be below
  `u64::MAX`; at the ceiling the saturating counter can repeat an id.
- PendingComments.NextCommentableRow: the row index is unbounded, so the
  `usize` overflow of `from + 1` is not modelled.
- ReviewDiffView.RangesCoverVisibleContent: the converse (covered implies the
  loop answers yes) is stated only for ranges sorted by start, as the caller
  provides them.
- Markdown.Render: states only that at least one line remains and that the
  last of several lines is not empty; the per-event formatting is modelled
  but not specified further.
- Drafts.FileNameSpec: states that the name is one path component and
  differs between two pulls of one repository, not the full
  `owner__repo__number.json` layout.
- Shared.ShortTimestamp: slicing at byte 16 panics in Rust when that byte is
  not a character boundary; the model returns None there.
- Markdown.Slot: line 0 maps to slot 0, following the `saturating_sub`.
