/**
 * Persistence of review drafts: the staged comments and reply drafts of a
 * pull request are converted to a versioned record and kept in a file
 * named after the pull under the drafts directory. The directory is
 * modelled as a map from file name to what reading and parsing that file
 * gives.
 */
module Drafts {
  import opened Wrappers
  import opened Text
  import opened Order
  import opened PendingComments

  /** `DRAFT_FORMAT_VERSION`. */
  const DraftFormatVersion: nat := 1

  // ---------------------------------------------------------------------
  // Records and conversions
  // ---------------------------------------------------------------------

  /** `PersistedPendingSide`, written in snake case. */
  datatype PersistedSide = PersistedLeft | PersistedRight

  /** `PersistedPendingReviewComment`. */
  datatype PersistedComment = PersistedComment(
    id: nat, path: string, side: PersistedSide, line: nat, startLine: Option<nat>, body: string)

  /** `PersistedReviewDraft`. */
  datatype PersistedDraft = PersistedDraft(
    version: nat,
    owner: string,
    repo: string,
    pullNumber: nat,
    headSha: string,
    pendingReviewComments: seq<PersistedComment>,
    replyDrafts: map<string, string>)

  /** The fields of the open pull request that naming, saving and signing read. */
  datatype PullRef = PullRef(owner: string, repo: string, number: nat, headSha: string)

  /** `From<PendingReviewCommentSide> for PersistedPendingSide`. */
  function ToPersistedSide(s: Side): (r: PersistedSide)
    ensures r == PersistedLeft <==> s == Left
  {
    match s
    case Left => PersistedLeft
    case Right => PersistedRight
  }

  /** `From<PersistedPendingSide> for PendingReviewCommentSide`. */
  function FromPersistedSide(s: PersistedSide): (r: Side)
    ensures r == Left <==> s == PersistedLeft
  {
    match s
    case PersistedLeft => Left
    case PersistedRight => Right
  }

  /** `From<PendingReviewCommentDraft> for PersistedPendingReviewComment`. */
  function ToPersisted(c: PendingDraft): PersistedComment
  {
    PersistedComment(c.id, c.path, ToPersistedSide(c.side), c.line, c.startLine, c.body)
  }

  /** `From<PersistedPendingReviewComment> for PendingReviewCommentDraft`. */
  function FromPersisted(p: PersistedComment): PendingDraft
  {
    PendingDraft(p.id, p.path, FromPersistedSide(p.side), p.line, p.startLine, p.body)
  }

  /** The two conversions are inverse in both directions: no field is lost or changed. */
  lemma ConversionRoundTrip(c: PendingDraft, p: PersistedComment)
    ensures FromPersisted(ToPersisted(c)) == c
    ensures ToPersisted(FromPersisted(p)) == p
    ensures FromPersistedSide(ToPersistedSide(c.side)) == c.side
    ensures ToPersistedSide(FromPersistedSide(p.side)) == p.side
  {
  }

  /** The conversions of a whole list, in order. */
  function AllToPersisted(cs: seq<PendingDraft>): (r: seq<PersistedComment>)
    ensures |r| == |cs|
  {
    seq(|cs|, i requires 0 <= i < |cs| => ToPersisted(cs[i]))
  }

  function AllFromPersisted(ps: seq<PersistedComment>): (r: seq<PendingDraft>)
    ensures |r| == |ps|
  {
    seq(|ps|, i requires 0 <= i < |ps| => FromPersisted(ps[i]))
  }

  /** Converting a list to records and back gives the list. */
  lemma ListRoundTrip(cs: seq<PendingDraft>)
    ensures AllFromPersisted(AllToPersisted(cs)) == cs
  {
    var r := AllFromPersisted(AllToPersisted(cs));
    forall i | 0 <= i < |cs| ensures r[i] == cs[i] {
      ConversionRoundTrip(cs[i], ToPersisted(cs[i]));
    }
  }

  // ---------------------------------------------------------------------
  // File names
  // ---------------------------------------------------------------------

  /** The characters a file-name fragment keeps: ASCII letters and digits, '-', '_' and '.'. */
  predicate AllowedChar(c: char)
  {
    ('a' <= c <= 'z') || ('A' <= c <= 'Z') || ('0' <= c <= '9') || c == '-' || c == '_' || c == '.'
  }

  function SanitizeChar(c: char): (r: char)
    ensures AllowedChar(r)
  {
    if AllowedChar(c) then c else '_'
  }

  /** `sanitize_path_fragment`: every other character becomes '_'. */
  function SanitizePathFragment(s: string): (r: string)
  {
    seq(|s|, i requires 0 <= i < |s| => SanitizeChar(s[i]))
  }

  /**
   * Sanitizing keeps the length, leaves only allowed characters, keeps
   * those that were allowed, and changes nothing the second time.
   */
  lemma SanitizeSpec(s: string)
    ensures |SanitizePathFragment(s)| == |s|
    ensures forall i :: 0 <= i < |s| ==> AllowedChar(SanitizePathFragment(s)[i])
    ensures forall i :: 0 <= i < |s| ==> (AllowedChar(s[i]) <==> SanitizePathFragment(s)[i] == s[i])
    ensures SanitizePathFragment(SanitizePathFragment(s)) == SanitizePathFragment(s)
    ensures '/' !in SanitizePathFragment(s)
  {
  }

  /** `file_path_for_review`, below the drafts directory. */
  function FileName(pull: PullRef): string
  {
    SanitizePathFragment(pull.owner) + "__" + SanitizePathFragment(pull.repo) + "__" + NatToString(pull.number) + ".json"
  }

  /**
   * The name is one path component (no '/'), and two pulls of the same
   * repository get different files.
   */
  lemma FileNameSpec(a: PullRef, b: PullRef)
    ensures '/' !in FileName(a)
    ensures a.owner == b.owner && a.repo == b.repo && a.number != b.number ==> FileName(a) != FileName(b)
  {
    SanitizeSpec(a.owner);
    SanitizeSpec(a.repo);
    if a.owner == b.owner && a.repo == b.repo && FileName(a) == FileName(b) {
      var prefix := SanitizePathFragment(a.owner) + "__" + SanitizePathFragment(a.repo) + "__";
      var da, db := NatToString(a.number), NatToString(b.number);
      assert FileName(a) == prefix + da + ".json" && FileName(b) == prefix + db + ".json";
      assert |da| == |db|;
      assert da == FileName(a)[|prefix|..|prefix| + |da|];
      assert db == FileName(b)[|prefix|..|prefix| + |db|];
      NatToStringInjective(a.number, b.number);
    }
  }

  // ---------------------------------------------------------------------
  // Load, save, clear
  // ---------------------------------------------------------------------

  /** What reading and parsing a stored file gives. */
  datatype StoredFile = Parsed(draft: PersistedDraft) | Unreadable | Unparseable

  /**
   * `DraftStore`: its root directory (`$HOME/.critic/drafts`, which never
   * ends in '/') and the files in it.
   */
  datatype Store = Store(root: string, files: map<string, StoredFile>)

  /** `LoadOutcome`. */
  datatype LoadOutcome =
    | NothingSaved
    | Loaded(pendingComments: seq<PendingDraft>, replyDrafts: map<string, string>, savedHeadSha: Option<string>)

  /** The result of a load and the store after it (an outdated file is deleted). */
  datatype LoadResult = LoadResult(outcome: Result<LoadOutcome, string>, store: Store)

  /** `file_path_for_review`, as `display()` shows it: the root joined with the file name. */
  function DraftPath(store: Store, pull: PullRef): string
  {
    store.root + "/" + FileName(pull)
  }

  /**
   * `load_for_review`. `deleteFails` says whether the file system refuses
   * to delete the pull's file, which only matters for an outdated file.
   */
  function LoadForReview(store: Store, pull: PullRef, deleteFails: bool): LoadResult
  {
    var name := FileName(pull);
    if name !in store.files then LoadResult(Ok(NothingSaved), store)
    else match store.files[name]
      case Unreadable => LoadResult(Err("failed to read draft file " + DraftPath(store, pull)), store)
      case Unparseable => LoadResult(Err("failed to parse draft file " + DraftPath(store, pull)), store)
      case Parsed(p) =>
        if p.version != DraftFormatVersion then
          if deleteFails then LoadResult(Err("failed to delete outdated draft file " + DraftPath(store, pull)), store)
          else LoadResult(Ok(NothingSaved), store.(files := store.files - {name}))
        else
          var saved := if p.headSha != pull.headSha then Some(p.headSha) else None;
          LoadResult(Ok(Loaded(AllFromPersisted(p.pendingReviewComments), p.replyDrafts, saved)), store)
  }

  /** `save_for_review`: a version-1 record of the pull, its staged comments and its reply drafts. */
  function SaveForReview(store: Store, pull: PullRef, pending: seq<PendingDraft>, replies: map<string, string>): Store
  {
    store.(files := store.files[FileName(pull) := Parsed(PersistedDraft(DraftFormatVersion, pull.owner, pull.repo,
                                                                        pull.number, pull.headSha,
                                                                        AllToPersisted(pending), replies))])
  }

  /** `clear_for_review`: removes the pull's file when there is one. */
  function ClearForReview(store: Store, pull: PullRef): Store
  {
    if FileName(pull) in store.files then store.(files := store.files - {FileName(pull)}) else store
  }

  /**
   * Loading: nothing saved gives no outcome and no change; a file that
   * cannot be read or parsed is an error naming its path and stays; a file
   * of another version is deleted and gives no outcome, or, when it cannot
   * be deleted, is an error naming its path and stays; a current-version
   * file loads its comments and reply drafts, and the saved head sha is
   * reported exactly when it differs from the pull's. No other file is
   * touched.
   */
  lemma LoadSpec(store: Store, pull: PullRef, deleteFails: bool)
    ensures var name := FileName(pull);
      var r := LoadForReview(store, pull, deleteFails);
      (name !in store.files ==> r == LoadResult(Ok(NothingSaved), store)) &&
      (name in store.files && store.files[name].Unreadable? ==>
        r == LoadResult(Err("failed to read draft file " + store.root + "/" + name), store)) &&
      (name in store.files && store.files[name].Unparseable? ==>
        r == LoadResult(Err("failed to parse draft file " + store.root + "/" + name), store)) &&
      (name in store.files && store.files[name].Parsed? && store.files[name].draft.version != DraftFormatVersion ==>
        r == (if deleteFails then LoadResult(Err("failed to delete outdated draft file " + store.root + "/" + name), store)
              else LoadResult(Ok(NothingSaved), store.(files := store.files - {name})))) &&
      (name in store.files && store.files[name].Parsed? && store.files[name].draft.version == DraftFormatVersion ==>
        var p := store.files[name].draft;
        r == LoadResult(Ok(Loaded(AllFromPersisted(p.pendingReviewComments), p.replyDrafts,
                                  if p.headSha != pull.headSha then Some(p.headSha) else None)), store)) &&
      (r.outcome.Ok? && r.outcome.value.Loaded? ==>
        var p := store.files[name].draft;
        p.version == DraftFormatVersion && r.store == store &&
        (r.outcome.value.savedHeadSha.Some? <==> p.headSha != pull.headSha) &&
        (r.outcome.value.savedHeadSha.Some? ==> r.outcome.value.savedHeadSha.value == p.headSha)) &&
      r.store.root == store.root &&
      (forall other :: other != name ==>
        (other in r.store.files <==> other in store.files) &&
        (other in store.files ==> r.store.files[other] == store.files[other]))
  {
    var path := DraftPath(store, pull);
    assert "failed to read draft file " + path == "failed to read draft file " + store.root + "/" + FileName(pull);
    assert "failed to parse draft file " + path == "failed to parse draft file " + store.root + "/" + FileName(pull);
    assert "failed to delete outdated draft file " + path ==
           "failed to delete outdated draft file " + store.root + "/" + FileName(pull);
  }

  /** Saving and then loading the same pull gives back exactly what was saved, with no head-sha warning. */
  lemma SaveThenLoad(store: Store, pull: PullRef, pending: seq<PendingDraft>, replies: map<string, string>,
                     deleteFails: bool)
    ensures var saved := SaveForReview(store, pull, pending, replies);
      LoadForReview(saved, pull, deleteFails) == LoadResult(Ok(Loaded(pending, replies, None)), saved)
  {
    ListRoundTrip(pending);
  }

  /**
   * Drafts saved at one head and loaded once the pull has moved to another
   * come back in full, with the head they were saved at reported.
   */
  lemma SaveThenLoadAtNewHead(store: Store, pull: PullRef, newHead: string, pending: seq<PendingDraft>,
                              replies: map<string, string>, deleteFails: bool)
    requires newHead != pull.headSha
    ensures var saved := SaveForReview(store, pull, pending, replies);
      LoadForReview(saved, pull.(headSha := newHead), deleteFails) ==
      LoadResult(Ok(Loaded(pending, replies, Some(pull.headSha))), saved)
  {
    ListRoundTrip(pending);
    assert FileName(pull.(headSha := newHead)) == FileName(pull);
  }

  /** After clearing, the pull loads as nothing saved; other files are untouched. */
  lemma ClearThenLoad(store: Store, pull: PullRef, deleteFails: bool)
    ensures LoadForReview(ClearForReview(store, pull), pull, deleteFails).outcome == Ok(NothingSaved)
    ensures forall other :: other != FileName(pull) && other in store.files ==>
      other in ClearForReview(store, pull).files && ClearForReview(store, pull).files[other] == store.files[other]
  {
  }

  /** Saving one pull does not change what another pull of the repository loads. */
  lemma SaveKeepsOtherPulls(store: Store, pull: PullRef, other: PullRef, pending: seq<PendingDraft>,
                            replies: map<string, string>, deleteFails: bool)
    requires other.owner == pull.owner && other.repo == pull.repo && other.number != pull.number
    ensures LoadForReview(SaveForReview(store, pull, pending, replies), other, deleteFails).outcome ==
            LoadForReview(store, other, deleteFails).outcome
  {
    FileNameSpec(pull, other);
  }

  // ---------------------------------------------------------------------
  // The change signature
  // ---------------------------------------------------------------------

  /** `{:?}` of a side. */
  function SideDebug(s: Side): string
  {
    match s
    case Left => "Left"
    case Right => "Right"
  }

  /** `{:?}` of an optional line. */
  function OptionDebug(o: Option<nat>): string
  {
    match o
    case None => "None"
    case Some(n) => "Some(" + NatToString(n) + ")"
  }

  /** The signature's leading part: the pull and the number of staged comments. */
  function SignatureHeader(pull: PullRef, count: nat): string
  {
    pull.owner + "/" + pull.repo + "/" + NatToString(pull.number) + "@" + pull.headSha + "|" + NatToString(count) + "|"
  }

  /** One staged comment's part. */
  function CommentPart(c: PendingDraft): string
  {
    NatToString(c.id) + ":" + c.path + ":" + SideDebug(c.side) + ":" + NatToString(c.line) + ":" +
    OptionDebug(c.startLine) + ":" + c.body + "|"
  }

  function CommentParts(cs: seq<PendingDraft>): string
  {
    if |cs| == 0 then [] else CommentParts(cs[..|cs| - 1]) + CommentPart(cs[|cs| - 1])
  }

  function EntryKey(e: (string, string)): string
  {
    e.0
  }

  function ReplyParts(es: seq<(string, string)>): string
  {
    if |es| == 0 then [] else ReplyParts(es[..|es| - 1]) + es[|es| - 1].0 + ":" + es[|es| - 1].1 + "|"
  }

  /** The reply drafts in the order `entries` (however the map is enumerated). */
  ghost predicate Enumerates(entries: seq<(string, string)>, m: map<string, string>)
  {
    multiset(entries) == multiset(m.Items)
  }

  /** `draft_signature` over an enumeration of the reply drafts: the entries go sorted by key. */
  function Signature(pull: PullRef, pending: seq<PendingDraft>, entries: seq<(string, string)>): string
  {
    SignatureHeader(pull, |pending|) + CommentParts(pending) + ReplyParts(SortBy(entries, EntryKey))
  }

  lemma CommentPartsSnoc(pending: seq<PendingDraft>, i: nat)
    requires i < |pending|
    ensures CommentParts(pending[..i + 1]) == CommentParts(pending[..i]) + CommentPart(pending[i])
  {
    assert pending[..i + 1][..i] == pending[..i];
  }

  /** Lets a loop extend an accumulated string without unfolding the part it appends. */
  lemma ConcatAssoc(a: string, b: string, c: string)
    ensures (a + b) + c == a + (b + c)
  {
  }

  /** The loop over the staged comments: appends each comment's part. */
  method AppendCommentParts(prefix: string, pending: seq<PendingDraft>) returns (out: string)
    ensures out == prefix + CommentParts(pending)
  {
    out := prefix;
    var i := 0;
    while i < |pending|
      invariant 0 <= i <= |pending|
      invariant out == prefix + CommentParts(pending[..i])
    {
      var part := CommentPart(pending[i]);
      CommentPartsSnoc(pending, i);
      ConcatAssoc(prefix, CommentParts(pending[..i]), part);
      out := out + part;
      i := i + 1;
    }
    assert pending[..i] == pending;
  }

  /** The loop over the sorted reply drafts: appends `key:value|` for each. */
  method AppendReplyParts(prefix: string, sorted: seq<(string, string)>) returns (out: string)
    ensures out == prefix + ReplyParts(sorted)
  {
    out := prefix;
    var k := 0;
    while k < |sorted|
      invariant 0 <= k <= |sorted|
      invariant out == prefix + ReplyParts(sorted[..k])
    {
      assert sorted[..k + 1][..k] == sorted[..k];
      out := out + sorted[k].0 + ":" + sorted[k].1 + "|";
      k := k + 1;
    }
    assert sorted[..k] == sorted;
  }

  /** `draft_signature`, with the map's iteration order given as `entries`. */
  method DraftSignature(pull: PullRef, pending: seq<PendingDraft>, entries: seq<(string, string)>)
    returns (signature: string)
    ensures signature == Signature(pull, pending, entries)
  {
    signature := SignatureHeader(pull, |pending|);
    signature := AppendCommentParts(signature, pending);
    var sorted := SortBy(entries, EntryKey);
    signature := AppendReplyParts(signature, sorted);
  }

  /** No two different entries share a key, as in a map's entries. */
  ghost predicate KeysDetermine(m: multiset<(string, string)>)
  {
    forall x, y :: x in m && y in m && x.0 == y.0 ==> x == y
  }

  lemma KeysDetermineSub(m: multiset<(string, string)>, sub: multiset<(string, string)>)
    requires KeysDetermine(m) && sub <= m
    ensures KeysDetermine(sub)
  {
  }

  /** The first elements of two such sequences share their key, so they are equal. */
  lemma SortedHeadsEqual(a: seq<(string, string)>, b: seq<(string, string)>)
    requires |a| > 0 && |b| > 0
    requires SortedBy(a, EntryKey) && SortedBy(b, EntryKey) && multiset(a) == multiset(b)
    requires KeysDetermine(multiset(a))
    ensures a[0] == b[0]
  {
    assert a[0] in multiset(b) && b[0] in multiset(a);
    var i :| 0 <= i < |b| && b[i] == a[0];
    var j :| 0 <= j < |a| && a[j] == b[0];
    if i > 0 { assert StrLe(EntryKey(b[0]), EntryKey(b[i])); } else { StrLeRefl(b[0].0); }
    if j > 0 { assert StrLe(EntryKey(a[0]), EntryKey(a[j])); } else { StrLeRefl(a[0].0); }
    StrLeAntisym(a[0].0, b[0].0);
  }

  /** Dropping the first element keeps a sequence sorted. */
  lemma SortedTail(a: seq<(string, string)>)
    requires |a| > 0 && SortedBy(a, EntryKey)
    ensures SortedBy(a[1..], EntryKey)
  {
    forall i, j | 0 <= i < j < |a[1..]| ensures StrLe(EntryKey(a[1..][i]), EntryKey(a[1..][j])) {
      assert a[1..][i] == a[i + 1] && a[1..][j] == a[j + 1];
    }
  }

  /** Dropping equal first elements keeps two sequences' elements alike. */
  lemma MultisetTails(a: seq<(string, string)>, b: seq<(string, string)>)
    requires |a| > 0 && |b| > 0 && a[0] == b[0] && multiset(a) == multiset(b)
    ensures multiset(a[1..]) == multiset(b[1..]) && multiset(a[1..]) <= multiset(a)
  {
    assert a == [a[0]] + a[1..] && b == [b[0]] + b[1..];
    assert multiset(a[1..]) == multiset(a) - multiset{a[0]};
    assert multiset(b[1..]) == multiset(b) - multiset{b[0]};
  }

  /**
   * Two sequences sorted by key with the same elements are equal when
   * elements with equal keys are equal.
   */
  lemma {:induction false} SortedByUnique(a: seq<(string, string)>, b: seq<(string, string)>)
    requires SortedBy(a, EntryKey) && SortedBy(b, EntryKey) && multiset(a) == multiset(b)
    requires KeysDetermine(multiset(a))
    ensures a == b
    decreases |a|
  {
    assert |a| == |multiset(a)| == |b|;
    if |a| > 0 {
      SortedHeadsEqual(a, b);
      SortedTail(a);
      SortedTail(b);
      MultisetTails(a, b);
      KeysDetermineSub(multiset(a), multiset(a[1..]));
      SortedByUnique(a[1..], b[1..]);
      SameHeadSameTail(a, b);
    }
  }

  lemma SameHeadSameTail(a: seq<(string, string)>, b: seq<(string, string)>)
    requires |a| > 0 && |b| > 0 && a[0] == b[0] && a[1..] == b[1..]
    ensures a == b
  {
    assert a == [a[0]] + a[1..] && b == [b[0]] + b[1..];
  }

  /**
   * The signature does not depend on the order the reply drafts are
   * enumerated in: any two enumerations of the same map sign alike.
   */
  lemma SignatureOrderIndependent(pull: PullRef, pending: seq<PendingDraft>, m: map<string, string>,
                                  e1: seq<(string, string)>, e2: seq<(string, string)>)
    requires Enumerates(e1, m) && Enumerates(e2, m)
    ensures Signature(pull, pending, e1) == Signature(pull, pending, e2)
  {
    var s1, s2 := SortBy(e1, EntryKey), SortBy(e2, EntryKey);
    SortBySorted(e1, EntryKey);
    SortBySorted(e2, EntryKey);
    forall x: (string, string), y: (string, string) | x in multiset(s1) && y in multiset(s1) && x.0 == y.0 ensures x == y {
      assert x in m.Items && y in m.Items;
    }
    assert KeysDetermine(multiset(s1));
    SortedByUnique(s1, s2);
  }

  /** Taking one entry out of a map takes exactly that pair out of its items. */
  lemma ItemsRemove(m: map<string, string>, k: string)
    requires k in m
    ensures multiset(m.Items) == multiset{(k, m[k])} + multiset((m - {k}).Items)
  {
    var rest := m - {k};
    forall p: (string, string) | p in m.Items ensures p in rest.Items + {(k, m[k])} {
      assert p.0 in m && m[p.0] == p.1;
      if p.0 != k {
        assert p.0 in rest && rest[p.0] == p.1;
      }
    }
    forall p: (string, string) | p in rest.Items ensures p in m.Items {
      assert p.0 in rest && rest[p.0] == p.1;
      assert p.0 in m && m[p.0] == p.1;
    }
    assert m.Items == rest.Items + {(k, m[k])};
    assert (k, m[k]) !in rest.Items;
  }

  /**
   * `reply_drafts.iter()`: a `HashMap` yields its entries in an order the
   * model does not fix; any order the choice below picks is allowed.
   */
  method MapEntries(m: map<string, string>) returns (entries: seq<(string, string)>)
    ensures Enumerates(entries, m)
  {
    entries := [];
    var rest := m;
    while rest != map[]
      invariant multiset(entries) + multiset(rest.Items) == multiset(m.Items)
      decreases |rest|
    {
      var k :| k in rest;
      ItemsRemove(rest, k);
      entries := entries + [(k, rest[k])];
      rest := rest - {k};
    }
    assert rest.Items == {};
  }

  /** One enumeration of a map, used to name the signature of the map itself. */
  ghost function SomeEntries(m: map<string, string>): (r: seq<(string, string)>)
    decreases |m|
  {
    if m == map[] then [] else
      var k :| k in m;
      [(k, m[k])] + SomeEntries(m - {k})
  }

  lemma {:induction false} SomeEntriesEnumerates(m: map<string, string>)
    ensures Enumerates(SomeEntries(m), m)
    decreases |m|
  {
    if m != map[] {
      var k :| k in m && SomeEntries(m) == [(k, m[k])] + SomeEntries(m - {k});
      SomeEntriesEnumerates(m - {k});
      ItemsRemove(m, k);
    } else {
      assert m.Items == {};
    }
  }

  /** The signature of a review's drafts, whatever order the reply map is walked in. */
  ghost function DraftsSignature(pull: PullRef, pending: seq<PendingDraft>, replies: map<string, string>): string
  {
    Signature(pull, pending, SomeEntries(replies))
  }

  /** `draft_signature` on any enumeration of the reply map is the map's signature. */
  lemma SignatureOfEnumeration(pull: PullRef, pending: seq<PendingDraft>, replies: map<string, string>,
                               entries: seq<(string, string)>)
    requires Enumerates(entries, replies)
    ensures Signature(pull, pending, entries) == DraftsSignature(pull, pending, replies)
  {
    SomeEntriesEnumerates(replies);
    SignatureOrderIndependent(pull, pending, replies, entries, SomeEntries(replies));
  }
}
