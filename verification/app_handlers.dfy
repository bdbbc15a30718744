/**
 * The application-level handlers of `app/mod.rs`: applying the results
 * the background workers send back, deciding when the staged drafts of the
 * open review are written to or removed from the draft store, assembling
 * a review submission, and the small input helpers.
 *
 * The draft store is the abstract file map of `Drafts`; the outcome of a
 * write or delete on disk, the text the external editor returns and the
 * results of the background work are parameters.
 */
module AppHandlers {
  import opened Wrappers
  import opened Text
  import opened Domain
  import opened PendingComments
  import opened Drafts
  import opened SearchInput
  import opened ReviewScreen
  import opened AppSearch
  import Comments

  // ---------------------------------------------------------------------
  // Input helpers
  // ---------------------------------------------------------------------

  datatype MouseEventKind = ScrollUp | ScrollDown | OtherMouseEvent

  datatype MouseScrollDelta = Up(lines: nat) | Down(lines: nat)

  /** Lines moved per wheel notch. */
  const ScrollStep: nat := 3

  /** `mouse_scroll_delta`: only the wheel scrolls, three lines a notch. */
  function ScrollDelta(kind: MouseEventKind): (r: Option<MouseScrollDelta>)
    ensures r == Some(MouseScrollDelta.Up(3)) <==> kind == ScrollUp
    ensures r == Some(MouseScrollDelta.Down(3)) <==> kind == ScrollDown
    ensures r == None <==> kind == OtherMouseEvent
  {
    match kind
    case ScrollUp => Some(MouseScrollDelta.Up(ScrollStep))
    case ScrollDown => Some(MouseScrollDelta.Down(ScrollStep))
    case OtherMouseEvent => None
  }

  datatype KeyCode = Esc | Enter | Backspace | Char(c: char) | OtherKey

  /** `char::is_control`: the Unicode control characters U+0000..U+001F and U+007F..U+009F. */
  predicate IsControl(c: char)
  {
    c as int <= 0x1F || (0x7F <= c as int <= 0x9F)
  }

  /**
   * `handle_search_input_edit_key`: Esc and Enter leave the box, Backspace
   * and printable characters edit the query; the answer says whether the
   * query may have changed.
   */
  method HandleSearchInputEditKey(key: KeyCode, input: SearchInputState) returns (edited: bool)
    modifies input
    ensures (key == Esc || key == Enter) ==> !edited && !input.focused && input.query == old(input.query)
    ensures key == Backspace ==> edited && input.query == Pop(old(input.query)) && input.focused == old(input.focused)
    ensures key.Char? && !IsControl(key.c) ==>
      edited && input.query == old(input.query) + [key.c] && input.focused == old(input.focused)
    ensures (key == OtherKey || (key.Char? && IsControl(key.c))) ==> !edited && unchanged(input)
  {
    if key == Esc || key == Enter {
      input.Unfocus();
      edited := false;
    } else if key == Backspace {
      input.Backspace();
      edited := true;
    } else if key.Char? && !IsControl(key.c) {
      input.PushChar(key.c);
      edited := true;
    } else {
      edited := false;
    }
  }

  // ---------------------------------------------------------------------
  // Which review a worker message is about
  // ---------------------------------------------------------------------

  /** The open review screen as a frame: empty when none is open. */
  function Reviews(state: AppState): set<ReviewScreenState>
    reads state
  {
    if state.review.Some? then {state.review.value} else {}
  }

  /** Two summaries name the same pull request (number, owner and repository). */
  predicate SamePull(a: PullRef, b: PullRef)
  {
    a.number == b.number && a.owner == b.owner && a.repo == b.repo
  }

  /** A review screen is open and shows `pull`. */
  predicate Showing(state: AppState, pull: PullRef)
    reads state, Reviews(state)
  {
    state.review.Some? && SamePull(state.review.value.pull, pull)
  }

  // ---------------------------------------------------------------------
  // Worker results
  // ---------------------------------------------------------------------

  /**
   * The `MutationApplied` arm. A failure only reports its error: the staged
   * comments and reply drafts stay for another attempt. A success for the
   * open review forgets the posted reply draft, forgets the staged comments
   * only when the mutation submitted them, and takes the refreshed data.
   */
  method MutationApplied(state: AppState, pull: PullRef, clearReplyRootKey: Option<string>,
                         clearPending: bool, result: Result<PullRequestData, string>)
    modifies state`operation, state`errorMessage, state`route
    modifies Reviews(state)`replyDrafts, Reviews(state)`pending, Reviews(state)`nextId, Reviews(state)`anchor,
             Reviews(state)`pull, Reviews(state)`data
    ensures state.operation == None && state.review == old(state.review)
    ensures result.Err? ==>
      state.errorMessage == Some(result.error) && state.route == old(state.route) &&
      (state.review.Some? ==> unchanged(state.review.value))
    ensures result.Ok? && !old(Showing(state, pull)) ==>
      state.errorMessage == None && state.route == old(state.route) &&
      (state.review.Some? ==> unchanged(state.review.value))
    ensures result.Ok? && old(Showing(state, pull)) ==>
      var r := state.review.value;
      state.errorMessage == None && state.route == ReviewRoute &&
      r.pending == (if clearPending then [] else old(r.pending)) &&
      r.nextId == (if clearPending then 1 else old(r.nextId)) &&
      r.anchor == (if clearPending then None else old(r.anchor)) &&
      r.replyDrafts == (if clearReplyRootKey.Some? then old(r.replyDrafts) - {clearReplyRootKey.value}
                        else old(r.replyDrafts)) &&
      r.data == result.value && r.pull == old(r.pull).(headSha := result.value.headSha)
  {
    state.operation := None;
    if result.Ok? {
      state.errorMessage := None;
      if state.review.Some? && SamePull(state.review.value.pull, pull) {
        var review := state.review.value;
        if clearReplyRootKey.Some? {
          review.ClearReplyDraft(clearReplyRootKey.value);
        }
        if clearPending {
          review.ClearPendingReviewComments();
        }
        var headChanged := review.SetData(result.value);
        state.route := ReviewRoute;
      }
    } else {
      state.errorMessage := Some(result.error);
    }
  }

  /** The warning shown when a refresh finds new commits under staged comments. */
  function OutdatedWarning(count: nat): string
  {
    "pull request changed upstream; " + NatToString(count) + " pending inline comment(s) may now be outdated"
  }

  /** What a review screen opened on freshly loaded data restores from a load outcome. */
  predicate RestoredFrom(r: ReviewScreenState, outcome: Result<LoadOutcome, string>)
    reads r
  {
    if outcome.Ok? && outcome.value.Loaded? then
      r.pending == KeepRestorable(outcome.value.pendingComments, r.data.changedFiles) &&
      r.nextId == RestoredNextId(r.pending) &&
      r.replyDrafts == KeepReplyDrafts(outcome.value.replyDrafts, ValidRoots(r.data.comments))
    else
      r.pending == [] && r.nextId == 1 && r.replyDrafts == map[]
  }

  /**
   * New data for the review already open: the diff view is reset, the
   * staged comments and reply drafts are kept, and a warning names the
   * staged comments when the head commit moved under them.
   */
  method RefreshOpenReview(state: AppState, review: ReviewScreenState, data: PullRequestData)
    modifies state`errorMessage, state`route
    modifies review`pull, review`data, review`diff, review`diffError, review`selectedDiffRow, review`selectedDiffFile,
             review`selectedDiffLine, review`anchor, review`diffScroll, review`selectedHunk, review`viewportHeight,
             review`collapsedDirs, review`diffSearchQuery, review`diffTreeRows
    ensures state.route == ReviewRoute
    ensures review.data == data && review.pull == old(review.pull).(headSha := data.headSha) && review.DiffViewReset()
    ensures review.pending == old(review.pending) && review.nextId == old(review.nextId)
    ensures review.replyDrafts == old(review.replyDrafts)
    ensures state.errorMessage ==
      (if old(review.pull.headSha) != data.headSha && |review.pending| > 0 then Some(OutdatedWarning(|review.pending|))
       else old(state.errorMessage))
  {
    ghost var replies := review.replyDrafts;
    review.ClearDiff();
    assert review.replyDrafts == replies;
    var headChanged := review.SetData(data);
    assert review.replyDrafts == replies;
    if headChanged && |review.pending| > 0 {
      state.errorMessage := Some(OutdatedWarning(|review.pending|));
    }
    state.route := ReviewRoute;
  }

  /**
   * Data for a pull that is not open: a new review screen, with the drafts
   * saved for it restored from the store when there is one (a stored file
   * of another format version is removed by the load; `deleteFails` says
   * whether that removal is refused).
   */
  method OpenReviewWithDrafts(state: AppState, pull: PullRef, data: PullRequestData, store: Option<Store>,
                              deleteFails: bool)
    returns (storeAfter: Option<Store>)
    modifies state`errorMessage, state`route, state`review
    ensures state.review.Some? && fresh(state.review.value) && state.route == ReviewRoute
    ensures var r := state.review.value;
      r.pull == pull.(headSha := data.headSha) && r.data == data && r.DiffViewReset() &&
      (store.None? ==>
        storeAfter == None && RestoredFrom(r, Ok(NothingSaved)) && state.errorMessage == old(state.errorMessage)) &&
      (store.Some? ==>
        var loaded := LoadForReview(store.value, r.pull, deleteFails);
        storeAfter == Some(loaded.store) && RestoredFrom(r, loaded.outcome) &&
        state.errorMessage == (if loaded.outcome.Err? then Some("failed to load saved draft: " + loaded.outcome.error)
                               else old(state.errorMessage)))
  {
    storeAfter := store;
    state.OpenReview(pull, data);
    var review := state.review.value;
    if store.Some? {
      var loaded := LoadForReview(store.value, review.pull, deleteFails);
      storeAfter := Some(loaded.store);
      if loaded.outcome.Ok? && loaded.outcome.value.Loaded? {
        var restoredComments, restoredReplies :=
          review.ApplyRestoredDrafts(loaded.outcome.value.pendingComments, loaded.outcome.value.replyDrafts);
      } else if loaded.outcome.Err? {
        state.errorMessage := Some("failed to load saved draft: " + loaded.outcome.error);
      }
    }
  }

  /**
   * The `PullRequestDataLoaded` arm: a failure reports its error; data for
   * the open review refreshes it; data for another pull opens it with its
   * saved drafts. On success the last persisted signature is forgotten, so
   * the next pass writes the drafts again.
   */
  method PullRequestDataLoaded(state: AppState, pull: PullRef, result: Result<PullRequestData, string>,
                               store: Option<Store>, deleteFails: bool, lastSignature: Option<string>)
    returns (storeAfter: Option<Store>, lastSignatureAfter: Option<string>)
    modifies state`operation, state`errorMessage, state`route, state`review
    modifies Reviews(state)`pull, Reviews(state)`data, Reviews(state)`diff, Reviews(state)`diffError,
             Reviews(state)`selectedDiffRow, Reviews(state)`selectedDiffFile, Reviews(state)`selectedDiffLine,
             Reviews(state)`anchor, Reviews(state)`diffScroll, Reviews(state)`selectedHunk,
             Reviews(state)`viewportHeight, Reviews(state)`collapsedDirs, Reviews(state)`diffSearchQuery,
             Reviews(state)`diffTreeRows
    ensures state.operation == None
    ensures result.Err? ==>
      state.errorMessage == Some(result.error) && state.route == old(state.route) &&
      state.review == old(state.review) && (state.review.Some? ==> unchanged(state.review.value)) &&
      storeAfter == store && lastSignatureAfter == lastSignature
    ensures result.Ok? && old(Showing(state, pull)) ==>
      state.review == old(state.review) && state.review.Some? && storeAfter == store && lastSignatureAfter == None &&
      (var r := state.review.value;
       r.data == result.value && r.DiffViewReset() && r.pending == old(r.pending) && r.replyDrafts == old(r.replyDrafts) &&
       state.errorMessage ==
         (if old(r.pull.headSha) != result.value.headSha && |r.pending| > 0 then Some(OutdatedWarning(|r.pending|))
          else None))
    ensures result.Ok? && !old(Showing(state, pull)) ==>
      state.review.Some? && fresh(state.review.value) && lastSignatureAfter == None &&
      (var r := state.review.value;
       r.pull == pull.(headSha := result.value.headSha) && r.data == result.value &&
       (store.None? ==> storeAfter == None && RestoredFrom(r, Ok(NothingSaved))) &&
       (store.Some? ==> storeAfter == Some(LoadForReview(store.value, r.pull, deleteFails).store) &&
                        RestoredFrom(r, LoadForReview(store.value, r.pull, deleteFails).outcome)) &&
       state.errorMessage ==
         (if store.Some? && LoadForReview(store.value, r.pull, deleteFails).outcome.Err?
          then Some("failed to load saved draft: " + LoadForReview(store.value, r.pull, deleteFails).outcome.error)
          else None))
    ensures result.Ok? ==> state.route == ReviewRoute
  {
    state.operation := None;
    storeAfter, lastSignatureAfter := store, lastSignature;
    if result.Err? {
      state.errorMessage := Some(result.error);
      return;
    }
    state.errorMessage := None;
    if state.review.Some? && SamePull(state.review.value.pull, pull) {
      RefreshOpenReview(state, state.review.value, result.value);
      lastSignatureAfter := None;
      return;
    }
    storeAfter := OpenReviewWithDrafts(state, pull, result.value, store, deleteFails);
    lastSignatureAfter := None;
  }

  // ---------------------------------------------------------------------
  // Persisting drafts
  // ---------------------------------------------------------------------

  /** Some reply draft holds more than whitespace. */
  predicate HasReplies(replies: map<string, string>)
  {
    exists k :: k in replies && !IsBlank(replies[k])
  }

  /** The review has something worth saving: a staged comment or a non-blank reply. */
  predicate HasDrafts(r: ReviewScreenState)
    reads r
  {
    |r.pending| > 0 || HasReplies(r.replyDrafts)
  }

  /**
   * Nothing left to save: the saved file is removed when this session wrote
   * one, and the signature is forgotten either way.
   */
  method ForgetSavedDrafts(state: AppState, review: ReviewScreenState, store: Store, lastSignature: Option<string>,
                           writeError: Option<string>)
    returns (storeAfter: Store, lastSignatureAfter: Option<string>)
    modifies state`errorMessage
    ensures lastSignatureAfter == None
    ensures lastSignature.None? || writeError.Some? ==> storeAfter == store
    ensures lastSignature.Some? && writeError.None? ==> storeAfter == ClearForReview(store, review.pull)
    ensures state.errorMessage == (if lastSignature.Some? && writeError.Some?
                                   then Some("failed to clear saved draft: " + writeError.value)
                                   else old(state.errorMessage))
  {
    storeAfter, lastSignatureAfter := store, None;
    if lastSignature.Some? {
      if writeError.Some? {
        state.errorMessage := Some("failed to clear saved draft: " + writeError.value);
      } else {
        storeAfter := ClearForReview(store, review.pull);
      }
    }
  }

  /**
   * Something to save: nothing is written when the drafts sign as they did
   * at the last successful write; a failed write keeps the old signature so
   * the next pass retries; a successful one leaves a file that loads back
   * the same staged comments and reply drafts.
   */
  method SaveChangedDrafts(state: AppState, review: ReviewScreenState, store: Store, lastSignature: Option<string>,
                           writeError: Option<string>)
    returns (storeAfter: Store, lastSignatureAfter: Option<string>)
    modifies state`errorMessage
    ensures var signature := DraftsSignature(review.pull, review.pending, review.replyDrafts);
      (lastSignature == Some(signature) ==>
        storeAfter == store && lastSignatureAfter == lastSignature && state.errorMessage == old(state.errorMessage)) &&
      (lastSignature != Some(signature) && writeError.Some? ==>
        storeAfter == store && lastSignatureAfter == lastSignature &&
        state.errorMessage == Some("failed to save draft: " + writeError.value)) &&
      (lastSignature != Some(signature) && writeError.None? ==>
        storeAfter == SaveForReview(store, review.pull, review.pending, review.replyDrafts) &&
        lastSignatureAfter == Some(signature) && state.errorMessage == old(state.errorMessage) &&
        forall fails :: LoadForReview(storeAfter, review.pull, fails).outcome == Ok(Loaded(review.pending, review.replyDrafts, None)))
  {
    storeAfter, lastSignatureAfter := store, lastSignature;
    var entries := MapEntries(review.replyDrafts);
    var signature := DraftSignature(review.pull, review.pending, entries);
    SignatureOfEnumeration(review.pull, review.pending, review.replyDrafts, entries);
    if lastSignature == Some(signature) {
      return;
    }
    if writeError.Some? {
      state.errorMessage := Some("failed to save draft: " + writeError.value);
      return;
    }
    storeAfter := SaveForReview(store, review.pull, review.pending, review.replyDrafts);
    forall fails ensures LoadForReview(storeAfter, review.pull, fails).outcome == Ok(Loaded(review.pending, review.replyDrafts, None)) {
      SaveThenLoad(store, review.pull, review.pending, review.replyDrafts, fails);
    }
    lastSignatureAfter := Some(signature);
  }

  /**
   * `persist_review_drafts`, run after every handled event. `writeError`
   * is the failure the store reports for the write or delete this pass
   * attempts, if any. Without an open review the signature is forgotten.
   */
  method PersistReviewDrafts(state: AppState, store: Store, lastSignature: Option<string>, writeError: Option<string>)
    returns (storeAfter: Store, lastSignatureAfter: Option<string>)
    modifies state`errorMessage
    ensures state.review.None? ==>
      storeAfter == store && lastSignatureAfter == None && state.errorMessage == old(state.errorMessage)
    ensures state.review.Some? && !HasDrafts(state.review.value) ==>
      lastSignatureAfter == None &&
      (lastSignature.None? || writeError.Some? ==> storeAfter == store) &&
      (lastSignature.Some? && writeError.None? ==> storeAfter == ClearForReview(store, state.review.value.pull)) &&
      state.errorMessage == (if lastSignature.Some? && writeError.Some?
                             then Some("failed to clear saved draft: " + writeError.value)
                             else old(state.errorMessage))
    ensures state.review.Some? && HasDrafts(state.review.value) ==>
      var r := state.review.value;
      var signature := DraftsSignature(r.pull, r.pending, r.replyDrafts);
      (lastSignature == Some(signature) ==>
        storeAfter == store && lastSignatureAfter == lastSignature && state.errorMessage == old(state.errorMessage)) &&
      (lastSignature != Some(signature) && writeError.Some? ==>
        storeAfter == store && lastSignatureAfter == lastSignature &&
        state.errorMessage == Some("failed to save draft: " + writeError.value)) &&
      (lastSignature != Some(signature) && writeError.None? ==>
        storeAfter == SaveForReview(store, r.pull, r.pending, r.replyDrafts) &&
        lastSignatureAfter == Some(signature) && state.errorMessage == old(state.errorMessage) &&
        forall fails :: LoadForReview(storeAfter, r.pull, fails).outcome == Ok(Loaded(r.pending, r.replyDrafts, None)))
  {
    if state.review.None? {
      storeAfter, lastSignatureAfter := store, None;
      return;
    }
    var review := state.review.value;
    var hasPending := |review.pending| > 0;
    var hasReplies := HasNonBlankReply(review.replyDrafts);
    if !hasPending && !hasReplies {
      storeAfter, lastSignatureAfter := ForgetSavedDrafts(state, review, store, lastSignature, writeError);
    } else {
      storeAfter, lastSignatureAfter := SaveChangedDrafts(state, review, store, lastSignature, writeError);
    }
  }

  /** The `values().any(..)` walk over the reply drafts. */
  method HasNonBlankReply(replies: map<string, string>) returns (found: bool)
    ensures found <==> HasReplies(replies)
  {
    var rest := replies;
    found := false;
    while rest != map[] && !found
      invariant rest.Keys <= replies.Keys
      invariant forall k :: k in rest ==> rest[k] == replies[k]
      invariant found <==> exists k :: k in replies && k !in rest && !IsBlank(replies[k])
      invariant !found ==> forall k :: k in replies && k !in rest ==> IsBlank(replies[k])
      decreases |rest|
    {
      var k :| k in rest;
      if !IsBlank(rest[k]) {
        found := true;
      }
      rest := rest - {k};
    }
  }

  // ---------------------------------------------------------------------
  // Submitting a review
  // ---------------------------------------------------------------------

  datatype ReviewSubmissionEvent = CommentEvent | ApproveEvent | RequestChangesEvent

  /** `as_api_event`. */
  function ApiEvent(e: ReviewSubmissionEvent): (r: string)
    ensures Comments.IsReviewEvent(r)
  {
    match e
    case CommentEvent => "COMMENT"
    case ApproveEvent => "APPROVE"
    case RequestChangesEvent => "REQUEST_CHANGES"
  }

  /** `title`: the label of the busy indicator. */
  function Title(e: ReviewSubmissionEvent): string
  {
    match e
    case CommentEvent => "Submit Review Comment"
    case ApproveEvent => "Submit Approval"
    case RequestChangesEvent => "Request Changes"
  }

  /** One inline comment of a submitted review. */
  datatype SubmitReviewComment = SubmitReviewComment(
    path: string, body: string, line: nat, side: Side, startLine: Option<nat>, startSide: Option<Side>)

  /** The submission form of one staged comment: a range starts on the comment's own side. */
  function ToSubmitComment(c: PendingDraft): (r: SubmitReviewComment)
    ensures r.path == c.path && r.body == c.body && r.line == c.line && r.side == c.side
    ensures r.startLine == c.startLine
    ensures r.startSide.Some? <==> c.startLine.Some?
    ensures r.startSide.Some? ==> r.startSide.value == c.side
  {
    SubmitReviewComment(c.path, c.body, c.line, c.side, c.startLine, if c.startLine.Some? then Some(c.side) else None)
  }

  /** The batch: one submission comment per staged comment, in staging order. */
  function SubmitComments(pending: seq<PendingDraft>): (r: seq<SubmitReviewComment>)
    ensures |r| == |pending|
    ensures forall i :: 0 <= i < |r| ==> r[i] == ToSubmitComment(pending[i])
  {
    seq(|pending|, i requires 0 <= i < |pending| => ToSubmitComment(pending[i]))
  }

  datatype MutationRequest = SubmitPullRequestReview(
    owner: string, repo: string, pullNumber: nat, event: string, body: string,
    comments: seq<SubmitReviewComment>, expectedHeadSha: string)

  /** What the external editor gave back: text, a cancelled edit, or a failure to start. */
  datatype EditorResult = Edited(text: string) | EditCancelled | EditorFailed(error: string)

  /**
   * `open_submit_review_editor_and_submit`: nothing happens while an
   * operation runs or without an open review; a review with neither text nor
   * staged comments is refused; otherwise the submission is issued, carrying
   * every staged comment and the head commit the comments were made on.
   */
  method OpenSubmitReviewEditorAndSubmit(state: AppState, event: ReviewSubmissionEvent, editor: EditorResult)
    returns (request: Option<MutationRequest>)
    modifies state`errorMessage, state`operation
    ensures old(state.operation).Some? || state.review.None? ==> request == None && unchanged(state)
    ensures old(state.operation).None? && state.review.Some? ==>
      var r := state.review.value;
      match editor
      case EditCancelled => request == None && unchanged(state)
      case EditorFailed(err) =>
        request == None && state.errorMessage == Some("failed to open editor: " + err) &&
        state.operation == None
      case Edited(text) =>
        if |Trim(text)| == 0 && |r.pending| == 0 then
          request == None && state.operation == None &&
          state.errorMessage == Some("review is empty; add text or stage inline comments")
        else
          request == Some(SubmitPullRequestReview(r.pull.owner, r.pull.repo, r.pull.number, ApiEvent(event),
                                                  Trim(text), SubmitComments(r.pending), r.pull.headSha)) &&
          state.errorMessage == None && state.operation == Some(Title(event))
  {
    request := None;
    if state.operation.Some? || state.review.None? {
      return;
    }
    var review := state.review.value;
    var pull := review.pull;
    var comments := SubmitComments(review.pending);
    var body: string;
    match editor {
      case Edited(text) =>
        body := Trim(text);
      case EditCancelled =>
        return;
      case EditorFailed(err) =>
        state.errorMessage := Some("failed to open editor: " + err);
        return;
    }
    if |body| == 0 && |comments| == 0 {
      state.errorMessage := Some("review is empty; add text or stage inline comments");
      return;
    }
    state.errorMessage := None;
    state.operation := Some(Title(event));
    request := Some(SubmitPullRequestReview(pull.owner, pull.repo, pull.number, ApiEvent(event), body, comments,
                                            pull.headSha));
  }
}
