/**
 * The pull-request search screen of `AppState`: the ranked results are
 * narrowed by scope (all, authored by the viewer, reviewed by the viewer)
 * and by status, ordered newest first by the chosen timestamp, and walked
 * with a clamped selection.
 */
module AppSearch {
  import opened Wrappers
  import opened Text
  import opened SearchInput
  import Domain
  import Drafts
  import ReviewScreen

  datatype ReviewStatus = Approved | ChangesRequested

  /** The fields of `PullRequestSummary` the search reads. */
  datatype PullSummary = PullSummary(
    number: nat,
    author: string,
    updatedAtMs: int,
    createdAtMs: int,
    isDraft: bool,
    reviewerLogins: seq<string>,
    reviewStatus: Option<ReviewStatus>)

  datatype SearchScope = AnyAuthor | ByViewer | ReviewedByViewer
  datatype StatusFilter = AnyStatus | DraftOnly | ReadyOnly | ApprovedOnly | RejectedOnly
  datatype SearchSort = ByUpdated | ByCreated

  // ---------------------------------------------------------------------
  // The toggles
  // ---------------------------------------------------------------------

  /** `toggle_search_scope`: all, author, reviewer, and round again. */
  function NextScope(s: SearchScope): SearchScope
  {
    match s
    case AnyAuthor => ByViewer
    case ByViewer => ReviewedByViewer
    case ReviewedByViewer => AnyAuthor
  }

  /** `toggle_search_status_filter`: all, draft, ready, approved, rejected, and round again. */
  function NextStatusFilter(s: StatusFilter): StatusFilter
  {
    match s
    case AnyStatus => DraftOnly
    case DraftOnly => ReadyOnly
    case ReadyOnly => ApprovedOnly
    case ApprovedOnly => RejectedOnly
    case RejectedOnly => AnyStatus
  }

  /** `toggle_search_sort`: updated and created alternate. */
  function NextSort(s: SearchSort): SearchSort
  {
    match s
    case ByUpdated => ByCreated
    case ByCreated => ByUpdated
  }

  /** Each toggle visits every setting once before coming back: scope after 3, status after 5, sort after 2. */
  lemma TogglesCycle(scope: SearchScope, status: StatusFilter, sort: SearchSort)
    ensures NextScope(NextScope(NextScope(scope))) == scope
    ensures NextScope(scope) != scope && NextScope(NextScope(scope)) != scope
    ensures NextStatusFilter(NextStatusFilter(NextStatusFilter(NextStatusFilter(NextStatusFilter(status))))) == status
    ensures NextStatusFilter(status) != status && NextStatusFilter(NextStatusFilter(status)) != status &&
      NextStatusFilter(NextStatusFilter(NextStatusFilter(status))) != status &&
      NextStatusFilter(NextStatusFilter(NextStatusFilter(NextStatusFilter(status)))) != status
    ensures NextSort(NextSort(sort)) == sort && NextSort(sort) != sort
  {
  }

  // ---------------------------------------------------------------------
  // Which pulls pass
  // ---------------------------------------------------------------------

  /** `eq_ignore_ascii_case`. */
  predicate EqIgnoreAsciiCase(a: string, b: string)
  {
    ToAsciiLower(a) == ToAsciiLower(b)
  }

  /**
   * `PullRequestSummary::has_reviewer`, whose body is not part of this
   * model: taken as an ASCII-case-insensitive match among the reviewer logins.
   */
  predicate HasReviewer(pull: PullSummary, login: string)
  {
    exists k :: 0 <= k < |pull.reviewerLogins| && EqIgnoreAsciiCase(pull.reviewerLogins[k], login)
  }

  /** `scope_matches`: without a known viewer every scope keeps every pull. */
  predicate ScopeMatches(pull: PullSummary, scope: SearchScope, viewer: Option<string>)
  {
    match scope
    case AnyAuthor => true
    case ByViewer => viewer.None? || EqIgnoreAsciiCase(pull.author, viewer.value)
    case ReviewedByViewer => viewer.None? || HasReviewer(pull, viewer.value)
  }

  /** `status_matches`. */
  predicate StatusMatches(pull: PullSummary, status: StatusFilter)
  {
    match status
    case AnyStatus => true
    case DraftOnly => pull.isDraft
    case ReadyOnly => !pull.isDraft
    case ApprovedOnly => pull.reviewStatus == Some(Approved)
    case RejectedOnly => pull.reviewStatus == Some(ChangesRequested)
  }

  /** Draft and ready split the pulls in two; approved and rejected never both hold. */
  lemma StatusFiltersPartition(pull: PullSummary)
    ensures StatusMatches(pull, DraftOnly) != StatusMatches(pull, ReadyOnly)
    ensures !(StatusMatches(pull, ApprovedOnly) && StatusMatches(pull, RejectedOnly))
    ensures StatusMatches(pull, AnyStatus) && ScopeMatches(pull, AnyAuthor, None)
  {
  }

  /** The viewer's login is compared ignoring ASCII case, so lowering it first changes nothing. */
  lemma ScopeIgnoresViewerCase(pull: PullSummary, scope: SearchScope, viewer: string)
    ensures ScopeMatches(pull, scope, Some(ToAsciiLower(viewer))) == ScopeMatches(pull, scope, Some(viewer))
  {
    ToAsciiLowerIdempotent(viewer);
  }

  /** A ranked index passes when it names a pull that matches the scope and the status. */
  predicate Passes(pulls: seq<PullSummary>, i: nat, scope: SearchScope, status: StatusFilter, viewer: Option<string>)
  {
    i < |pulls| && ScopeMatches(pulls[i], scope, viewer) && StatusMatches(pulls[i], status)
  }

  /** The `filter` step of `recompute_search`, in ranked order. */
  function Filtered(ranked: seq<nat>, pulls: seq<PullSummary>, scope: SearchScope, status: StatusFilter,
                    viewer: Option<string>): (r: seq<nat>)
    ensures |r| <= |ranked|
  {
    if |ranked| == 0 then []
    else
      var rest := Filtered(ranked[..|ranked| - 1], pulls, scope, status, viewer);
      var i := ranked[|ranked| - 1];
      if Passes(pulls, i, scope, status, viewer) then rest + [i] else rest
  }

  /** Exactly the passing ranked indices are kept. */
  lemma {:induction false} FilteredMembers(ranked: seq<nat>, pulls: seq<PullSummary>, scope: SearchScope,
                                           status: StatusFilter, viewer: Option<string>)
    ensures forall i :: i in Filtered(ranked, pulls, scope, status, viewer) <==>
      (i in ranked && Passes(pulls, i, scope, status, viewer))
  {
    if |ranked| > 0 {
      var init := ranked[..|ranked| - 1];
      FilteredMembers(init, pulls, scope, status, viewer);
      assert ranked == init + [ranked[|ranked| - 1]];
    }
  }

  // ---------------------------------------------------------------------
  // Newest first
  // ---------------------------------------------------------------------

  /** The timestamp the sort compares; 0 for an index that names no pull (`unwrap_or_default`). */
  function SortKey(pulls: seq<PullSummary>, sort: SearchSort, i: nat): int
  {
    if i < |pulls| then (match sort case ByUpdated => pulls[i].updatedAtMs case ByCreated => pulls[i].createdAtMs)
    else 0
  }

  predicate NewestFirstOrdered(s: seq<nat>, pulls: seq<PullSummary>, sort: SearchSort)
  {
    forall a, b :: 0 <= a < b < |s| ==> SortKey(pulls, sort, s[a]) >= SortKey(pulls, sort, s[b])
  }

  /** Puts `x` before the first entry that is not newer, so equal timestamps keep their order. */
  function InsertNewest(x: nat, s: seq<nat>, pulls: seq<PullSummary>, sort: SearchSort): (r: seq<nat>)
    ensures multiset(r) == multiset(s) + multiset{x}
  {
    if |s| == 0 then [x]
    else if SortKey(pulls, sort, s[0]) <= SortKey(pulls, sort, x) then [x] + s
    else
      assert s == [s[0]] + s[1..];
      [s[0]] + InsertNewest(x, s[1..], pulls, sort)
  }

  /** Inserting keeps every timestamp under a bound that the entries and `x` are under. */
  lemma {:induction false} InsertNewestBounded(x: nat, s: seq<nat>, pulls: seq<PullSummary>, sort: SearchSort, bound: int)
    requires SortKey(pulls, sort, x) <= bound
    requires forall k :: 0 <= k < |s| ==> SortKey(pulls, sort, s[k]) <= bound
    ensures forall k :: 0 <= k < |InsertNewest(x, s, pulls, sort)| ==> SortKey(pulls, sort, InsertNewest(x, s, pulls, sort)[k]) <= bound
  {
    if |s| > 0 && SortKey(pulls, sort, s[0]) > SortKey(pulls, sort, x) {
      InsertNewestBounded(x, s[1..], pulls, sort, bound);
    }
  }

  lemma {:induction false} InsertNewestOrdered(x: nat, s: seq<nat>, pulls: seq<PullSummary>, sort: SearchSort)
    requires NewestFirstOrdered(s, pulls, sort)
    ensures NewestFirstOrdered(InsertNewest(x, s, pulls, sort), pulls, sort)
  {
    if |s| > 0 && SortKey(pulls, sort, s[0]) > SortKey(pulls, sort, x) {
      InsertNewestOrdered(x, s[1..], pulls, sort);
      InsertNewestBounded(x, s[1..], pulls, sort, SortKey(pulls, sort, s[0]));
    }
  }

  /** The `sort_by` of `recompute_search`: a stable sort by descending timestamp. */
  function NewestFirst(s: seq<nat>, pulls: seq<PullSummary>, sort: SearchSort): seq<nat>
  {
    if |s| == 0 then [] else InsertNewest(s[0], NewestFirst(s[1..], pulls, sort), pulls, sort)
  }

  /** The sort reorders the entries only, and leaves them newest first. */
  lemma {:induction false} NewestFirstSpec(s: seq<nat>, pulls: seq<PullSummary>, sort: SearchSort)
    ensures multiset(NewestFirst(s, pulls, sort)) == multiset(s)
    ensures NewestFirstOrdered(NewestFirst(s, pulls, sort), pulls, sort)
  {
    if |s| > 0 {
      NewestFirstSpec(s[1..], pulls, sort);
      InsertNewestOrdered(s[0], NewestFirst(s[1..], pulls, sort), pulls, sort);
      assert s == [s[0]] + s[1..];
    }
  }

  /** The entries of `s` whose timestamp is `t`, in their order in `s`. */
  function WithKey(s: seq<nat>, pulls: seq<PullSummary>, sort: SearchSort, t: int): seq<nat>
  {
    if |s| == 0 then []
    else (if SortKey(pulls, sort, s[0]) == t then [s[0]] else []) + WithKey(s[1..], pulls, sort, t)
  }

  /** The entries of `[y] + s` with timestamp `t`: `y` when it has it, then those of `s`. */
  lemma WithKeyCons(y: nat, s: seq<nat>, pulls: seq<PullSummary>, sort: SearchSort, t: int)
    ensures WithKey([y] + s, pulls, sort, t) == (if SortKey(pulls, sort, y) == t then [y] else []) + WithKey(s, pulls, sort, t)
  {
    assert ([y] + s)[0] == y && ([y] + s)[1..] == s;
  }

  /** Inserting `x` passes over newer entries only, so among equal timestamps `x` goes first. */
  lemma {:induction false} InsertNewestWithKey(x: nat, s: seq<nat>, pulls: seq<PullSummary>, sort: SearchSort, t: int)
    ensures WithKey(InsertNewest(x, s, pulls, sort), pulls, sort, t) ==
      (if SortKey(pulls, sort, x) == t then [x] else []) + WithKey(s, pulls, sort, t)
  {
    if |s| == 0 || SortKey(pulls, sort, s[0]) <= SortKey(pulls, sort, x) {
      WithKeyCons(x, s, pulls, sort, t);
    } else {
      var head, tail := s[0], s[1..];
      assert s == [head] + tail;
      assert InsertNewest(x, s, pulls, sort) == [head] + InsertNewest(x, tail, pulls, sort);
      InsertNewestWithKey(x, tail, pulls, sort, t);
      WithKeyCons(head, InsertNewest(x, tail, pulls, sort), pulls, sort, t);
      WithKeyCons(head, tail, pulls, sort, t);
      PassOverNewer(x, head, WithKey(tail, pulls, sort, t), pulls, sort, t);
    }
  }

  /** Passing over an entry newer than `x` does not reorder entries of one timestamp. */
  lemma PassOverNewer(x: nat, head: nat, rest: seq<nat>, pulls: seq<PullSummary>, sort: SearchSort, t: int)
    requires SortKey(pulls, sort, head) > SortKey(pulls, sort, x)
    ensures var mine: seq<nat> := if SortKey(pulls, sort, x) == t then [x] else [];
      var theirs: seq<nat> := if SortKey(pulls, sort, head) == t then [head] else [];
      theirs + (mine + rest) == mine + (theirs + rest)
  {
  }

  /** The sort is stable: the entries sharing a timestamp keep their relative order. */
  lemma {:induction false} NewestFirstStable(s: seq<nat>, pulls: seq<PullSummary>, sort: SearchSort, t: int)
    ensures WithKey(NewestFirst(s, pulls, sort), pulls, sort, t) == WithKey(s, pulls, sort, t)
  {
    if |s| > 0 {
      NewestFirstStable(s[1..], pulls, sort, t);
      InsertNewestWithKey(s[0], NewestFirst(s[1..], pulls, sort), pulls, sort, t);
    }
  }

  /** `recompute_search`'s result list for the ranking `ranked` of the current query. */
  function SearchResults(ranked: seq<nat>, pulls: seq<PullSummary>, scope: SearchScope, status: StatusFilter,
                         sort: SearchSort, viewer: Option<string>): seq<nat>
  {
    NewestFirst(Filtered(ranked, pulls, scope, status, viewer), pulls, sort)
  }

  /**
   * The results are the passing ranked indices, each as often as ranked,
   * newest first; every result names a pull of the scope and status.
   */
  lemma SearchResultsSpec(ranked: seq<nat>, pulls: seq<PullSummary>, scope: SearchScope, status: StatusFilter,
                          sort: SearchSort, viewer: Option<string>)
    ensures var r := SearchResults(ranked, pulls, scope, status, sort, viewer);
      multiset(r) == multiset(Filtered(ranked, pulls, scope, status, viewer)) &&
      NewestFirstOrdered(r, pulls, sort) &&
      (forall i :: i in r <==> i in ranked && Passes(pulls, i, scope, status, viewer)) &&
      (forall t :: WithKey(r, pulls, sort, t) == WithKey(Filtered(ranked, pulls, scope, status, viewer), pulls, sort, t))
  {
    var f := Filtered(ranked, pulls, scope, status, viewer);
    NewestFirstSpec(f, pulls, sort);
    FilteredMembers(ranked, pulls, scope, status, viewer);
    var r := SearchResults(ranked, pulls, scope, status, sort, viewer);
    assert forall i :: i in r <==> i in multiset(r);
    assert forall i :: i in f <==> i in multiset(f);
    forall t ensures WithKey(r, pulls, sort, t) == WithKey(f, pulls, sort, t) {
      NewestFirstStable(f, pulls, sort, t);
    }
  }

  /** The selection after the results change: kept when still in range, else the last result (or 0). */
  function ClampSelected(selected: nat, n: nat): (r: nat)
    ensures n > 0 ==> r < n
    ensures n == 0 ==> r == 0
    ensures selected < n ==> r == selected
  {
    if selected >= n then (if n == 0 then 0 else n - 1) else selected
  }

  /** The selection is on a result, or at 0 when there are none. */
  predicate SelectionInRange(selected: nat, n: nat)
  {
    selected < n || (n == 0 && selected == 0)
  }

  // ---------------------------------------------------------------------
  // The state
  // ---------------------------------------------------------------------

  /** Which screen is shown. */
  datatype Route = SearchRoute | ReviewRoute

  /**
   * The search part of `AppState`. The ranking `rank_pull_requests(query,
   * pulls)` is computed outside this model and passed in as `ranked`.
   */
  class AppState {
    var route: Route
    var errorMessage: Option<string>
    /** The label of the running background operation; `is_busy` iff present. */
    var operation: Option<string>
    /** The open review screen, if any. */
    var review: Option<ReviewScreen.ReviewScreenState>
    var pullRequests: seq<PullSummary>
    var searchInput: SearchInputState
    var searchResults: seq<nat>
    var searchSelected: nat
    var viewerLogin: Option<string>
    var searchScope: SearchScope
    var searchStatusFilter: StatusFilter
    var searchSort: SearchSort

    /** `Default`: the search screen, no pulls, an empty search, every filter off, newest updated first. */
    constructor()
      ensures route == SearchRoute && errorMessage == None && operation == None && review == None
      ensures pullRequests == [] && searchResults == [] && searchSelected == 0 && viewerLogin == None
      ensures searchScope == AnyAuthor && searchStatusFilter == AnyStatus && searchSort == ByUpdated
      ensures fresh(searchInput) && searchInput.query == [] && !searchInput.focused
    {
      route := SearchRoute;
      errorMessage, operation, review := None, None, None;
      pullRequests := [];
      searchInput := new SearchInputState();
      searchResults := [];
      searchSelected := 0;
      viewerLogin := None;
      searchScope := AnyAuthor;
      searchStatusFilter := AnyStatus;
      searchSort := ByUpdated;
    }

    /** `open_review`: a fresh review screen for the pull, shown at once. */
    method OpenReview(pull: Drafts.PullRef, data: Domain.PullRequestData)
      modifies `review, `route
      ensures route == ReviewRoute && review.Some? && fresh(review.value)
      ensures review.value.pull == pull.(headSha := data.headSha) && review.value.data == data
      ensures review.value.DiffViewReset()
      ensures review.value.pending == [] && review.value.replyDrafts == map[] && review.value.nextId == 1
    {
      var screen := new ReviewScreen.ReviewScreenState(pull, data);
      review := Some(screen);
      route := ReviewRoute;
    }

    /** The viewer login as `recompute_search` uses it: lowercased. */
    function Viewer(): Option<string>
      reads this
    {
      match viewerLogin
      case None => None
      case Some(login) => Some(ToAsciiLower(login))
    }

    /** `recompute_search`. */
    method RecomputeSearch(ranked: seq<nat>)
      modifies `searchResults, `searchSelected
      ensures searchResults == SearchResults(ranked, pullRequests, searchScope, searchStatusFilter, searchSort, Viewer())
      ensures searchSelected == ClampSelected(old(searchSelected), |searchResults|)
      ensures SelectionInRange(searchSelected, |searchResults|)
    {
      var passing := Filtered(ranked, pullRequests, searchScope, searchStatusFilter, Viewer());
      searchResults := NewestFirst(passing, pullRequests, searchSort);
      if searchSelected >= |searchResults| {
        searchSelected := if |searchResults| == 0 then 0 else |searchResults| - 1;
      }
    }

    /** `set_pull_requests`: new pulls, new results, selection back at the top. */
    method SetPullRequests(pulls: seq<PullSummary>, ranked: seq<nat>)
      modifies `pullRequests, `searchResults, `searchSelected
      ensures pullRequests == pulls
      ensures searchResults == SearchResults(ranked, pulls, searchScope, searchStatusFilter, searchSort, Viewer())
      ensures searchSelected == 0
    {
      pullRequests := pulls;
      RecomputeSearch(ranked);
      searchSelected := 0;
    }

    /** `set_viewer_login`. */
    method SetViewerLogin(login: Option<string>, ranked: seq<nat>)
      modifies `viewerLogin, `searchResults, `searchSelected
      ensures viewerLogin == login
      ensures searchResults == SearchResults(ranked, pullRequests, searchScope, searchStatusFilter, searchSort, Viewer())
      ensures searchSelected == ClampSelected(old(searchSelected), |searchResults|)
    {
      viewerLogin := login;
      RecomputeSearch(ranked);
    }

    /** `toggle_search_scope`. */
    method ToggleSearchScope(ranked: seq<nat>)
      modifies `searchScope, `searchResults, `searchSelected
      ensures searchScope == NextScope(old(searchScope))
      ensures searchResults == SearchResults(ranked, pullRequests, searchScope, searchStatusFilter, searchSort, Viewer())
      ensures searchSelected == ClampSelected(old(searchSelected), |searchResults|)
    {
      searchScope := NextScope(searchScope);
      RecomputeSearch(ranked);
    }

    /** `toggle_search_status_filter`. */
    method ToggleSearchStatusFilter(ranked: seq<nat>)
      modifies `searchStatusFilter, `searchResults, `searchSelected
      ensures searchStatusFilter == NextStatusFilter(old(searchStatusFilter))
      ensures searchResults == SearchResults(ranked, pullRequests, searchScope, searchStatusFilter, searchSort, Viewer())
      ensures searchSelected == ClampSelected(old(searchSelected), |searchResults|)
    {
      searchStatusFilter := NextStatusFilter(searchStatusFilter);
      RecomputeSearch(ranked);
    }

    /** `toggle_search_sort`. */
    method ToggleSearchSort(ranked: seq<nat>)
      modifies `searchSort, `searchResults, `searchSelected
      ensures searchSort == NextSort(old(searchSort))
      ensures searchResults == SearchResults(ranked, pullRequests, searchScope, searchStatusFilter, searchSort, Viewer())
      ensures searchSelected == ClampSelected(old(searchSelected), |searchResults|)
    {
      searchSort := NextSort(searchSort);
      RecomputeSearch(ranked);
    }

    /** `selected_search_pull`: the pull the selected result names, if both exist. */
    function SelectedSearchPull(): (r: Option<PullSummary>)
      reads this
      ensures r.Some? <==> searchSelected < |searchResults| && searchResults[searchSelected] < |pullRequests|
      ensures r.Some? ==> r.value == pullRequests[searchResults[searchSelected]]
    {
      if searchSelected < |searchResults| && searchResults[searchSelected] < |pullRequests|
      then Some(pullRequests[searchResults[searchSelected]])
      else None
    }

    /** `search_move_down`: one result further, stopping at the last; 0 when there are none. */
    method SearchMoveDown()
      modifies `searchSelected
      ensures |searchResults| == 0 ==> searchSelected == 0
      ensures |searchResults| > 0 ==>
        searchSelected == if old(searchSelected) + 1 < |searchResults| then old(searchSelected) + 1 else |searchResults| - 1
      ensures SelectionInRange(searchSelected, |searchResults|)
    {
      if |searchResults| == 0 {
        searchSelected := 0;
        return;
      }
      searchSelected := if searchSelected + 1 < |searchResults| - 1 then searchSelected + 1 else |searchResults| - 1;
    }

    /** `search_move_up`: one result back, stopping at the first. */
    method SearchMoveUp()
      modifies `searchSelected
      ensures |searchResults| == 0 ==> searchSelected == 0
      ensures |searchResults| > 0 ==> searchSelected == if old(searchSelected) == 0 then 0 else old(searchSelected) - 1
      ensures old(SelectionInRange(searchSelected, |searchResults|)) ==> SelectionInRange(searchSelected, |searchResults|)
    {
      if |searchResults| == 0 {
        searchSelected := 0;
        return;
      }
      searchSelected := if searchSelected == 0 then 0 else searchSelected - 1;
    }

    /** `focus_search`: only the search box changes. */
    method FocusSearch()
      modifies searchInput
      ensures searchInput.focused && searchInput.query == old(searchInput.query)
    {
      searchInput.Focus();
    }
  }
}
