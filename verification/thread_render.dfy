/**
 * Helpers of the thread preview pane: where a review comment sits in its
 * file, which comment's patch hunk the preview shows, the prefixing of
 * rendered lines, and the pending-reply section with its empty-draft hint.
 * Markdown rendering is a function argument; spans are the renderer's.
 */
module ThreadRender {
  import opened Wrappers
  import opened Text
  import opened Domain
  import opened Markdown

  /**
   * `comment_location`: the path (or "(unknown path)" when blank), then
   * ":start-end" for a range of distinct lines, ":line" for one line, and
   * nothing when the comment has no line.
   */
  function CommentLocation(c: ReviewComment): string
  {
    var path := if IsBlank(c.path) then "(unknown path)" else c.path;
    path + Tail(c)
  }

  /** The three shapes of a location. */
  lemma CommentLocationCases(c: ReviewComment)
    ensures var path := if IsBlank(c.path) then "(unknown path)" else c.path;
      (c.startLine.Some? && c.line.Some? && c.startLine.value != c.line.value ==>
        CommentLocation(c) == path + ":" + NatToString(c.startLine.value) + "-" + NatToString(c.line.value)) &&
      (c.line.Some? && (c.startLine.None? || c.startLine.value == c.line.value) ==>
        CommentLocation(c) == path + ":" + NatToString(c.line.value)) &&
      (c.line.None? ==> CommentLocation(c) == path)
  {
    var path := if IsBlank(c.path) then "(unknown path)" else c.path;
    if c.line.Some? {
      var lines := Suffix(c);
      assert CommentLocation(c) == path + ":" + lines;
      if c.startLine.Some? && c.startLine.value != c.line.value {
        var s, e := NatToString(c.startLine.value), NatToString(c.line.value);
        assert lines == s + "-" + e;
        Regroup(path + ":", s, "-", e);
      }
    }
  }

  lemma Regroup(p: string, s: string, d: string, e: string)
    ensures p + (s + d + e) == p + s + d + e
  {
  }

  /**
   * Two comments on the same non-blank path that get the same location
   * name the same lines: the same end line, both a range or neither, and
   * for a range the same start line.
   */
  lemma CommentLocationInjective(a: ReviewComment, b: ReviewComment)
    requires a.path == b.path && !IsBlank(a.path)
    requires CommentLocation(a) == CommentLocation(b)
    ensures a.line == b.line
    ensures a.line.Some? ==> (a.startLine.Some? && a.startLine.value != a.line.value) ==
                             (b.startLine.Some? && b.startLine.value != b.line.value)
    ensures a.line.Some? && a.startLine.Some? && a.startLine.value != a.line.value ==> a.startLine == b.startLine
  {
    var path := a.path;
    var ta, tb := Tail(a), Tail(b);
    assert ta == tb by {
      assert (path + ta)[|path|..] == ta;
      assert (path + tb)[|path|..] == tb;
    }
    if a.line.Some? && b.line.Some? {
      assert ta[1..] == Suffix(a) && tb[1..] == Suffix(b);
      SuffixInjective(a, b);
    }
  }

  /** What a location adds after the path: ":" and the lines, or nothing. */
  function Tail(c: ReviewComment): string
  {
    if c.line.Some? then ":" + Suffix(c) else ""
  }

  /** The part of a location after the path and ':'. */
  function Suffix(c: ReviewComment): string
    requires c.line.Some?
  {
    if c.startLine.Some? && c.startLine.value != c.line.value then
      NatToString(c.startLine.value) + "-" + NatToString(c.line.value)
    else NatToString(c.line.value)
  }

  lemma SuffixInjective(a: ReviewComment, b: ReviewComment)
    requires a.line.Some? && b.line.Some? && Suffix(a) == Suffix(b)
    ensures a.line == b.line
    ensures (a.startLine.Some? && a.startLine.value != a.line.value) == (b.startLine.Some? && b.startLine.value != b.line.value)
    ensures a.startLine.Some? && a.startLine.value != a.line.value ==> a.startLine == b.startLine
  {
    var ra := a.startLine.Some? && a.startLine.value != a.line.value;
    var rb := b.startLine.Some? && b.startLine.value != b.line.value;
    if ra && rb {
      SplitAtDash(NatToString(a.startLine.value), NatToString(a.line.value),
                  NatToString(b.startLine.value), NatToString(b.line.value));
      NatToStringInjective(a.startLine.value, b.startLine.value);
      NatToStringInjective(a.line.value, b.line.value);
    } else if ra {
      DashNotDigit(NatToString(a.startLine.value), NatToString(a.line.value), NatToString(b.line.value));
    } else if rb {
      DashNotDigit(NatToString(b.startLine.value), NatToString(b.line.value), NatToString(a.line.value));
    } else {
      NatToStringInjective(a.line.value, b.line.value);
    }
  }

  predicate Digits(s: string)
  {
    forall i :: 0 <= i < |s| ==> '0' <= s[i] <= '9'
  }

  /** A string with a dash is not all digits. */
  lemma DashNotDigit(x: string, y: string, z: string)
    requires Digits(z)
    ensures x + "-" + y != z
  {
    var s := x + "-" + y;
    assert s[|x|] == '-';
  }

  /** Digit strings around a dash are split back at the dash. */
  lemma SplitAtDash(x1: string, y1: string, x2: string, y2: string)
    requires Digits(x1) && Digits(x2) && Digits(y1) && Digits(y2)
    requires x1 + "-" + y1 == x2 + "-" + y2
    ensures x1 == x2 && y1 == y2
  {
    var s := x1 + "-" + y1;
    assert s[|x1|] == '-' && s[|x2|] == '-';
    assert forall i :: 0 <= i < |x1| ==> s[i] == x1[i];
    assert forall i :: 0 <= i < |x2| ==> s[i] == x2[i];
    assert |x1| == |x2|;
    assert x1 == s[..|x1|] == x2;
    assert y1 == s[|x1| + 1..] == y2;
  }

  // ---------------------------------------------------------------------
  // Which patch the preview shows
  // ---------------------------------------------------------------------

  predicate HasHunk(c: ReviewComment)
  {
    !IsBlank(c.diffHunk)
  }

  /** `first_patch_comment`: the thread's own comment when it has a hunk, else the first found among its replies. */
  function FirstPatchComment(t: ReviewThread): (r: Option<ReviewComment>)
    ensures r.Some? ==> HasHunk(r.value)
    decreases t, 1
  {
    if HasHunk(t.comment) then Some(t.comment) else FirstPatchIn(t.replies)
  }

  function FirstPatchIn(ts: seq<ReviewThread>): (r: Option<ReviewComment>)
    ensures r.Some? ==> HasHunk(r.value)
    decreases ts, 0
  {
    if |ts| == 0 then None
    else
      match FirstPatchComment(ts[0])
      case Some(c) => Some(c)
      case None => FirstPatchIn(ts[1..])
  }

  /** The comments of a thread in preorder: the comment, then each reply's subtree in turn. */
  function Preorder(t: ReviewThread): seq<ReviewComment>
    decreases t, 1
  {
    [t.comment] + PreorderAll(t.replies)
  }

  function PreorderAll(ts: seq<ReviewThread>): seq<ReviewComment>
    decreases ts, 0
  {
    if |ts| == 0 then [] else Preorder(ts[0]) + PreorderAll(ts[1..])
  }

  /** The first comment with a hunk in a list. */
  function FirstWithHunk(cs: seq<ReviewComment>): Option<ReviewComment>
  {
    if |cs| == 0 then None else if HasHunk(cs[0]) then Some(cs[0]) else FirstWithHunk(cs[1..])
  }

  lemma {:induction false} FirstWithHunkAppend(a: seq<ReviewComment>, b: seq<ReviewComment>)
    ensures FirstWithHunk(a + b) == if FirstWithHunk(a).Some? then FirstWithHunk(a) else FirstWithHunk(b)
  {
    if |a| > 0 {
      assert (a + b)[0] == a[0];
      assert (a + b)[1..] == a[1..] + b;
      FirstWithHunkAppend(a[1..], b);
    } else {
      assert a + b == b;
    }
  }

  /** The search finds the first comment with a hunk in preorder. */
  lemma {:induction false} FirstPatchIsFirstInPreorder(t: ReviewThread)
    ensures FirstPatchComment(t) == FirstWithHunk(Preorder(t))
    decreases t, 1
  {
    FirstWithHunkAppend([t.comment], PreorderAll(t.replies));
    assert ([t.comment])[1..] == [];
    FirstPatchInIsFirstInPreorder(t.replies);
  }

  lemma {:induction false} FirstPatchInIsFirstInPreorder(ts: seq<ReviewThread>)
    ensures FirstPatchIn(ts) == FirstWithHunk(PreorderAll(ts))
    decreases ts, 0
  {
    if |ts| > 0 {
      FirstPatchIsFirstInPreorder(ts[0]);
      FirstPatchInIsFirstInPreorder(ts[1..]);
      FirstWithHunkAppend(Preorder(ts[0]), PreorderAll(ts[1..]));
    }
  }

  /**
   * `selected_patch_comment`: the selected review comment when it has a
   * hunk, otherwise the first comment of the root thread that has one.
   */
  function SelectedPatchComment(selected: ListNode, root: ReviewThread): (r: Option<ReviewComment>)
    ensures r.Some? ==> HasHunk(r.value)
    ensures selected.comment.ReviewRef? && HasHunk(selected.comment.review) ==> r == Some(selected.comment.review)
    ensures !(selected.comment.ReviewRef? && HasHunk(selected.comment.review)) ==> r == FirstPatchComment(root)
  {
    match selected.comment
    case ReviewRef(c) => if HasHunk(c) then Some(c) else FirstPatchComment(root)
    case _ => FirstPatchComment(root)
  }

  /** There is no patch to show only when neither the selection nor any comment of the thread has a hunk. */
  lemma SelectedPatchNone(selected: ListNode, root: ReviewThread)
    ensures SelectedPatchComment(selected, root).None? <==>
      !(selected.comment.ReviewRef? && HasHunk(selected.comment.review)) &&
      forall k :: 0 <= k < |Preorder(root)| ==> !HasHunk(Preorder(root)[k])
  {
    FirstPatchIsFirstInPreorder(root);
    FirstWithHunkNone(Preorder(root));
  }

  lemma {:induction false} FirstWithHunkNone(cs: seq<ReviewComment>)
    ensures FirstWithHunk(cs).None? <==> forall k :: 0 <= k < |cs| ==> !HasHunk(cs[k])
  {
    if |cs| > 0 {
      FirstWithHunkNone(cs[1..]);
      assert forall k :: 1 <= k < |cs| ==> cs[k] == cs[1..][k - 1];
    }
  }

  // ---------------------------------------------------------------------
  // Lines
  // ---------------------------------------------------------------------

  /** `prefix_lines`: one dimmed prefix span put in front of each line. */
  function PrefixLines(lines: seq<seq<MdSpan>>, prefix: string): (r: seq<seq<MdSpan>>)
    ensures |r| == |lines|
    ensures forall k :: 0 <= k < |r| ==> |r[k]| == |lines[k]| + 1 && r[k][0] == MdSpan(prefix, Dim) && r[k][1..] == lines[k]
  {
    seq(|lines|, k requires 0 <= k < |lines| => [MdSpan(prefix, Dim)] + lines[k])
  }

  const EmptyReplyHint: string := "  (empty)  [e] edit  [s] send  [x] clear"

  const ReplyHint: string := "  [e] edit  [s] send  [x] clear"

  /**
   * The pending-reply section of `render_thread_preview`: a blank or
   * missing draft shows only the empty-draft hint; otherwise the trimmed
   * draft is rendered, indented two columns, followed by the key hint.
   */
  function PendingReplySection(replyDraft: Option<string>, render: string -> seq<seq<MdSpan>>): (r: seq<seq<MdSpan>>)
    ensures IsBlank(replyDraft.UnwrapOr("")) ==> r == [[MdSpan(EmptyReplyHint, Dim)]]
    ensures !IsBlank(replyDraft.UnwrapOr("")) ==>
      var body := render(Trim(replyDraft.UnwrapOr("")));
      |r| == |body| + 1 && r[..|body|] == PrefixLines(body, "  ") && r[|body|] == [MdSpan(ReplyHint, Dim)]
  {
    var reply := Trim(replyDraft.UnwrapOr(""));
    if |reply| == 0 then [[MdSpan(EmptyReplyHint, Dim)]]
    else PrefixLines(render(reply), "  ") + [[MdSpan(ReplyHint, Dim)]]
  }
}
