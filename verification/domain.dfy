/**
 * The shared domain records of the review client: review comments and the
 * threads built from them, issue comments and review summaries, the merged
 * comment list of a pull request, the rendered diff, and the flattened
 * left-pane list nodes.
 */
module Domain {
  import opened Wrappers
  import opened Text

  /** `usize::MAX` on the 64-bit targets the client is built for. */
  const USIZE_MAX: nat := 0xFFFF_FFFF_FFFF_FFFF

  /** `u64::MAX`. */
  const U64_MAX: nat := 0xFFFF_FFFF_FFFF_FFFF

  /** `u16::MAX`. */
  const U16_MAX: nat := 0xFFFF

  /** A review comment as the hosting API returns it (the fields the client reads). */
  datatype ReviewComment = ReviewComment(
    id: nat,
    inReplyTo: Option<nat>,
    user: Option<string>,
    body: string,
    path: string,
    line: Option<nat>,
    startLine: Option<nat>,
    diffHunk: string,
    createdAtMs: int)

  /** An issue-style comment on the pull request. */
  datatype IssueComment = IssueComment(id: nat, user: string, body: Option<string>, createdAtMs: int)

  /** A submitted review with its summary body. */
  datatype ReviewSummary = ReviewSummary(id: nat, user: Option<string>, body: Option<string>, submittedAtMs: Option<int>)

  /** A review comment with its replies, and the thread's resolution state. */
  datatype ReviewThread = ReviewThread(
    threadId: Option<string>,
    isResolved: bool,
    comment: ReviewComment,
    replies: seq<ReviewThread>)

  /** One entry of the merged comment list. */
  datatype PullRequestComment =
    | ThreadEntry(thread: ReviewThread)
    | IssueEntry(issue: IssueComment)
    | SummaryEntry(summary: ReviewSummary)

  /** Everything the review screen shows for one pull request. */
  datatype PullRequestData = PullRequestData(
    headRef: string,
    baseRef: string,
    headSha: string,
    baseSha: string,
    changedFiles: seq<string>,
    comments: seq<PullRequestComment>)

  /** A character range of one side of a diff row; `end` is exclusive. */
  datatype HighlightRange = HighlightRange(start: nat, end: nat)

  datatype RowKind = Context | Added | Removed | Modified

  datatype FileStatus = FileModified | FileAdded | FileRemoved

  /** One aligned row of a side-by-side diff; line numbers are 1-based. */
  datatype DiffRow = DiffRow(
    leftLine: Option<nat>,
    rightLine: Option<nat>,
    leftText: string,
    rightText: string,
    leftHighlights: seq<HighlightRange>,
    rightHighlights: seq<HighlightRange>,
    kind: RowKind)

  /** One changed file: its rows and the row index at which each hunk starts. */
  datatype DiffFile = DiffFile(path: string, status: FileStatus, rows: seq<DiffRow>, hunkStarts: seq<nat>)

  datatype DiffData = DiffData(files: seq<DiffFile>)

  datatype ListNodeKind = ThreadNode | ReplyNode | IssueNode | ReviewNode

  /** The comment a list node stands for. */
  datatype CommentRef =
    | ReviewRef(review: ReviewComment)
    | IssueRef(issue: IssueComment)
    | SummaryRef(summary: ReviewSummary)

  /** One row of the flattened left pane. */
  datatype ListNode = ListNode(
    key: string,
    kind: ListNodeKind,
    depth: nat,
    rootKey: Option<string>,
    isResolved: bool,
    isOutdated: bool,
    comment: CommentRef)

  /** Number of review-thread entries in a comment list. */
  function ThreadCount(entries: seq<PullRequestComment>): nat
  {
    if |entries| == 0 then 0
    else ThreadCount(entries[..|entries| - 1]) + (if entries[|entries| - 1].ThreadEntry? then 1 else 0)
  }

  /** Number of resolved review-thread entries in a comment list. */
  function ResolvedCount(entries: seq<PullRequestComment>): nat
  {
    if |entries| == 0 then 0
    else
      var last := entries[|entries| - 1];
      ResolvedCount(entries[..|entries| - 1]) + (if last.ThreadEntry? && last.thread.isResolved then 1 else 0)
  }

  /** No more threads are resolved than there are threads. */
  lemma {:induction false} ResolvedAtMostTotal(entries: seq<PullRequestComment>)
    ensures ResolvedCount(entries) <= ThreadCount(entries)
  {
    if |entries| > 0 {
      ResolvedAtMostTotal(entries[..|entries| - 1]);
    }
  }

  /** `PullRequestData::review_thread_totals`: (resolved threads, all threads). */
  method ReviewThreadTotals(data: PullRequestData) returns (resolved: nat, total: nat)
    ensures total == ThreadCount(data.comments)
    ensures resolved == ResolvedCount(data.comments)
    ensures resolved <= total
  {
    total := 0;
    resolved := 0;
    var i := 0;
    while i < |data.comments|
      invariant 0 <= i <= |data.comments|
      invariant total == ThreadCount(data.comments[..i])
      invariant resolved == ResolvedCount(data.comments[..i])
    {
      assert data.comments[..i + 1][..i] == data.comments[..i];
      var entry := data.comments[i];
      if entry.ThreadEntry? {
        total := total + 1;
        if entry.thread.isResolved {
          resolved := resolved + 1;
        }
      }
      i := i + 1;
    }
    assert data.comments[..i] == data.comments;
    ResolvedAtMostTotal(data.comments);
  }

  /** The range that highlights a whole line. */
  function FullLine(): (r: HighlightRange)
    ensures r.start == 0 && IsFullLine(r)
  {
    HighlightRange(0, USIZE_MAX)
  }

  /** A range is a whole-line highlight exactly when its end is the `usize::MAX` sentinel. */
  predicate IsFullLine(r: HighlightRange)
  {
    r.end == USIZE_MAX
  }

  /** `CommentRef::author`: the login, or "unknown" where the API may omit the user. */
  function Author(c: CommentRef): (r: string)
    ensures c.IssueRef? ==> r == c.issue.user
    ensures c.ReviewRef? ==> r == c.review.user.UnwrapOr("unknown")
    ensures c.SummaryRef? ==> r == c.summary.user.UnwrapOr("unknown")
  {
    match c
    case ReviewRef(review) => review.user.UnwrapOr("unknown")
    case IssueRef(issue) => issue.user
    case SummaryRef(summary) => summary.user.UnwrapOr("unknown")
  }

  /** `CommentRef::body`: the body, or "" where the API may omit it. */
  function Body(c: CommentRef): (r: string)
    ensures c.ReviewRef? ==> r == c.review.body
    ensures c.IssueRef? ==> r == c.issue.body.UnwrapOr("")
    ensures c.SummaryRef? ==> r == c.summary.body.UnwrapOr("")
  {
    match c
    case ReviewRef(review) => review.body
    case IssueRef(issue) => issue.body.UnwrapOr("")
    case SummaryRef(summary) => summary.body.UnwrapOr("")
  }

  /** A review comment is outdated when it has lost its path or both of its line numbers. */
  predicate ReviewCommentIsOutdated(c: ReviewComment)
  {
    var hasPath := !IsBlank(c.path);
    var hasLine := c.line.Or(c.startLine).Some?;
    !(hasPath && hasLine)
  }

  lemma OutdatedIff(c: ReviewComment)
    ensures ReviewCommentIsOutdated(c) <==> (AllWhitespace(c.path) || (c.line.None? && c.startLine.None?))
  {
    BlankIffAllWhitespace(c.path);
  }
}
