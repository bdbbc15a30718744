/**
 * Construction of a side-by-side diff file from the aligned line pairs and
 * changed-line chunks a structural diff tool reports: row kinds, merged
 * highlight ranges, hunk start rows, and the fallbacks used when the tool
 * reported nothing for a file.
 */
module Diff {
  import opened Wrappers
  import opened Text
  import opened Domain

  // ---------------------------------------------------------------------
  // Highlight ranges: sorting by (start, end) and merging overlaps
  // ---------------------------------------------------------------------

  /** The order `sort_unstable_by_key(|r| (r.start, r.end))` sorts by. */
  predicate KeyLe(a: HighlightRange, b: HighlightRange)
  {
    a.start < b.start || (a.start == b.start && a.end <= b.end)
  }

  predicate SortedByKey(s: seq<HighlightRange>)
  {
    forall i, j :: 0 <= i < j < |s| ==> KeyLe(s[i], s[j])
  }

  function InsertByKey(x: HighlightRange, s: seq<HighlightRange>): (r: seq<HighlightRange>)
    requires SortedByKey(s)
    ensures |r| == |s| + 1 && multiset(r) == multiset(s) + multiset{x}
    ensures SortedByKey(r)
  {
    if |s| == 0 then [x]
    else if KeyLe(x, s[0]) then [x] + s
    else
      var tail := InsertByKey(x, s[1..]);
      InsertBehindHead(x, s, tail);
      [s[0]] + tail
  }

  /** Inserting behind the head keeps the head first: it is not after `x` nor after any later range. */
  lemma InsertBehindHead(x: HighlightRange, s: seq<HighlightRange>, tail: seq<HighlightRange>)
    requires |s| > 0 && SortedByKey(s) && !KeyLe(x, s[0])
    requires SortedByKey(tail) && multiset(tail) == multiset(s[1..]) + multiset{x}
    ensures SortedByKey([s[0]] + tail) && multiset([s[0]] + tail) == multiset(s) + multiset{x}
  {
    assert s == [s[0]] + s[1..];
    forall k | 0 <= k < |tail| ensures KeyLe(s[0], tail[k]) {
      assert tail[k] in multiset(s[1..]) + multiset{x};
      if tail[k] != x {
        assert tail[k] in s[1..];
      }
    }
  }

  /**
   * The sorted order of a list of ranges. Because the sort key is the whole
   * range, equal keys are equal ranges and every sort gives this same list,
   * stable or not.
   */
  function SortByKey(s: seq<HighlightRange>): (r: seq<HighlightRange>)
    ensures |r| == |s| && multiset(r) == multiset(s)
    ensures SortedByKey(r)
  {
    if |s| == 0 then []
    else
      assert s == s[..|s| - 1] + [s[|s| - 1]];
      InsertByKey(s[|s| - 1], SortByKey(s[..|s| - 1]))
  }

  /** Some range of `rs` contains position `p`. */
  predicate Covers(rs: seq<HighlightRange>, p: int)
  {
    exists k :: 0 <= k < |rs| && rs[k].start <= p < rs[k].end
  }

  lemma CoversAppend(a: seq<HighlightRange>, b: seq<HighlightRange>, p: int)
    ensures Covers(a + b, p) <==> Covers(a, p) || Covers(b, p)
  {
    if Covers(a + b, p) {
      var k :| 0 <= k < |a + b| && (a + b)[k].start <= p < (a + b)[k].end;
      if k >= |a| {
        assert b[k - |a|] == (a + b)[k];
      }
    }
    if Covers(a, p) {
      var k :| 0 <= k < |a| && a[k].start <= p < a[k].end;
      assert (a + b)[k] == a[k];
    }
    if Covers(b, p) {
      var k :| 0 <= k < |b| && b[k].start <= p < b[k].end;
      assert (a + b)[k + |a|] == b[k];
    }
  }

  lemma CoversSingle(r: HighlightRange, p: int)
    ensures Covers([r], p) <==> r.start <= p < r.end
  {
    assert [r][0] == r;
  }

  /** Lists holding the same ranges cover the same positions. */
  lemma CoversPermutation(a: seq<HighlightRange>, b: seq<HighlightRange>, p: int)
    requires multiset(a) == multiset(b)
    ensures Covers(a, p) <==> Covers(b, p)
  {
    if Covers(a, p) {
      var k :| 0 <= k < |a| && a[k].start <= p < a[k].end;
      assert a[k] in multiset(b);
      var j :| 0 <= j < |b| && b[j] == a[k];
    }
    if Covers(b, p) {
      var k :| 0 <= k < |b| && b[k].start <= p < b[k].end;
      assert b[k] in multiset(a);
      var j :| 0 <= j < |a| && a[j] == b[k];
    }
  }

  /** Consecutive ranges are ordered by start and separated by a strict gap. */
  predicate Gapped(rs: seq<HighlightRange>)
  {
    forall k :: 0 <= k < |rs| - 1 ==> rs[k].start <= rs[k + 1].start && rs[k].end < rs[k + 1].start
  }

  predicate AllNonEmpty(rs: seq<HighlightRange>)
  {
    forall k :: 0 <= k < |rs| ==> rs[k].start < rs[k].end
  }

  function Max(a: nat, b: nat): nat { if a >= b then a else b }

  /** One step of the merge loop: widen the last merged range, or start a new one. */
  function MergeStep(merged: seq<HighlightRange>, r: HighlightRange): seq<HighlightRange>
  {
    if |merged| > 0 && r.start <= merged[|merged| - 1].end then
      var last := merged[|merged| - 1];
      merged[..|merged| - 1] + [HighlightRange(last.start, Max(last.end, r.end))]
    else
      merged + [r]
  }

  /** The merge loop over a whole (sorted) list. */
  function MergeAll(s: seq<HighlightRange>): seq<HighlightRange>
  {
    if |s| == 0 then [] else MergeStep(MergeAll(s[..|s| - 1]), s[|s| - 1])
  }

  /** `merge_highlight_ranges` as a value: sort, then merge. */
  function MergedRanges(ranges: seq<HighlightRange>): seq<HighlightRange>
  {
    if |ranges| == 0 then [] else MergeAll(SortByKey(ranges))
  }

  /** The last merged range starts no later than the last input range. */
  lemma {:induction false} MergeAllLastStart(s: seq<HighlightRange>)
    requires SortedByKey(s)
    ensures var m := MergeAll(s);
      |s| > 0 ==> |m| > 0 && m[|m| - 1].start <= s[|s| - 1].start
  {
    if |s| > 1 {
      var init := s[..|s| - 1];
      assert SortedByKey(init);
      MergeAllLastStart(init);
      assert KeyLe(init[|init| - 1], s[|s| - 1]);
    }
  }

  lemma MergeStepGapped(m: seq<HighlightRange>, x: HighlightRange)
    requires Gapped(m)
    requires |m| > 0 ==> m[|m| - 1].start <= x.start
    ensures Gapped(MergeStep(m, x))
  {
    if |m| > 0 && x.start <= m[|m| - 1].end {
      var last := m[|m| - 1];
      var r := MergeStep(m, x);
      assert |r| == |m|;
      assert forall k :: 0 <= k < |m| - 1 ==> r[k] == m[k];
      assert r[|m| - 1].start == last.start;
    }
  }

  /** Merging a sorted list leaves consecutive ranges ordered and separated by a gap. */
  lemma {:induction false} MergeAllGapped(s: seq<HighlightRange>)
    requires SortedByKey(s)
    ensures Gapped(MergeAll(s))
  {
    if |s| > 0 {
      var init := s[..|s| - 1];
      var x := s[|s| - 1];
      assert SortedByKey(init);
      MergeAllGapped(init);
      MergeAllLastStart(init);
      if |init| > 0 {
        assert KeyLe(init[|init| - 1], x);
      }
      assert MergeAll(s) == MergeStep(MergeAll(init), x);
      MergeStepGapped(MergeAll(init), x);
    }
  }

  /** Merging keeps every range non-empty when the input ranges are. */
  lemma {:induction false} MergeAllNonEmpty(s: seq<HighlightRange>)
    requires AllNonEmpty(s)
    ensures AllNonEmpty(MergeAll(s))
  {
    if |s| > 0 {
      var init := s[..|s| - 1];
      assert AllNonEmpty(init);
      MergeAllNonEmpty(init);
    }
  }

  lemma MergeStepCovers(m: seq<HighlightRange>, x: HighlightRange, p: int)
    requires |m| > 0 ==> m[|m| - 1].start <= x.start
    ensures Covers(MergeStep(m, x), p) <==> Covers(m, p) || x.start <= p < x.end
  {
    CoversSingle(x, p);
    if |m| > 0 && x.start <= m[|m| - 1].end {
      var last := m[|m| - 1];
      var front := m[..|m| - 1];
      var wide := HighlightRange(last.start, Max(last.end, x.end));
      assert MergeStep(m, x) == front + [wide];
      assert m == front + [last];
      CoversAppend(front, [wide], p);
      CoversAppend(front, [last], p);
      CoversSingle(wide, p);
      CoversSingle(last, p);
    } else {
      CoversAppend(m, [x], p);
    }
  }

  /** Merging a sorted list covers exactly the positions the list covers. */
  lemma {:induction false} MergeAllCovers(s: seq<HighlightRange>, p: int)
    requires SortedByKey(s)
    ensures Covers(MergeAll(s), p) <==> Covers(s, p)
  {
    if |s| > 0 {
      var init := s[..|s| - 1];
      var x := s[|s| - 1];
      assert SortedByKey(init);
      MergeAllCovers(init, p);
      MergeAllLastStart(init);
      if |init| > 0 {
        assert KeyLe(init[|init| - 1], x);
      }
      assert MergeAll(s) == MergeStep(MergeAll(init), x);
      MergeStepCovers(MergeAll(init), x, p);
      assert s == init + [x];
      CoversAppend(init, [x], p);
      CoversSingle(x, p);
    }
  }

  /** The properties of the merge, for any input list. */
  lemma MergedRangesProperties(ranges: seq<HighlightRange>)
    ensures var m := MergedRanges(ranges);
      Gapped(m) && (AllNonEmpty(ranges) ==> AllNonEmpty(m)) &&
      (|ranges| == 0 <==> |m| == 0) &&
      (forall p :: Covers(m, p) <==> Covers(ranges, p))
  {
    if |ranges| > 0 {
      var sorted := SortByKey(ranges);
      MergeAllGapped(sorted);
      forall p ensures Covers(MergeAll(sorted), p) <==> Covers(ranges, p) {
        MergeAllCovers(sorted, p);
        CoversPermutation(sorted, ranges, p);
      }
      if AllNonEmpty(ranges) {
        forall k | 0 <= k < |sorted| ensures sorted[k].start < sorted[k].end {
          assert sorted[k] in multiset(ranges);
        }
        MergeAllNonEmpty(sorted);
      }
    }
  }

  /**
   * `merge_highlight_ranges`: sorts the ranges by (start, end) and folds each
   * one into the last merged range when it starts at or before that range's end.
   */
  method MergeHighlightRanges(ranges: seq<HighlightRange>) returns (merged: seq<HighlightRange>)
    ensures merged == MergedRanges(ranges)
    ensures Gapped(merged)
    ensures forall p :: Covers(merged, p) <==> Covers(ranges, p)
    ensures AllNonEmpty(ranges) ==> AllNonEmpty(merged)
  {
    MergedRangesProperties(ranges);
    if |ranges| == 0 {
      return [];
    }
    var sorted := SortByKey(ranges);
    merged := [];
    var i := 0;
    while i < |sorted|
      invariant 0 <= i <= |sorted|
      invariant merged == MergeAll(sorted[..i])
    {
      var range := sorted[i];
      assert sorted[..i + 1][..i] == sorted[..i];
      if |merged| > 0 && range.start <= merged[|merged| - 1].end {
        var last := merged[|merged| - 1];
        merged := merged[..|merged| - 1] + [HighlightRange(last.start, Max(last.end, range.end))];
      } else {
        merged := merged + [range];
      }
      i := i + 1;
    }
    assert sorted[..i] == sorted;
  }

  // ---------------------------------------------------------------------
  // The structural diff tool's report for one file
  // ---------------------------------------------------------------------

  /** A changed character range the tool reports on one line. */
  datatype Change = Change(start: nat, end: nat)

  /** One side of a chunk line: its 0-based line number and changed ranges. */
  datatype ChunkSide = ChunkSide(lineNumber: nat, changes: seq<Change>)

  datatype ChunkLine = ChunkLine(lhs: Option<ChunkSide>, rhs: Option<ChunkSide>)

  /** An aligned pair of 0-based line indices, either side possibly absent. */
  datatype Aligned = Aligned(left: Option<nat>, right: Option<nat>)

  datatype RawFile = RawFile(path: string, status: string, alignedLines: seq<Aligned>, chunks: seq<seq<ChunkLine>>)

  /** The base and head text of one file. */
  datatype SourcePair = SourcePair(base: string, head: string)

  datatype Side = LeftSide | RightSide

  function SideOf(line: ChunkLine, side: Side): Option<ChunkSide>
  {
    if side == LeftSide then line.lhs else line.rhs
  }

  /** `status_from_difft`: "created" is an added file, "deleted" a removed one, anything else modified. */
  function StatusFromDifft(status: string): (r: FileStatus)
    ensures r == FileAdded <==> status == "created"
    ensures r == FileRemoved <==> status == "deleted"
  {
    if status == "created" then FileAdded
    else if status == "deleted" then FileRemoved
    else FileModified
  }

  predicate AllEmptyLines(lines: seq<string>)
  {
    forall i :: 0 <= i < |lines| ==> lines[i] == []
  }

  /** `fallback_status`: no base text means added, else no head text means removed. */
  function FallbackStatus(left: seq<string>, right: seq<string>): (r: FileStatus)
    ensures r == FileAdded <==> AllEmptyLines(left)
    ensures r == FileRemoved <==> !AllEmptyLines(left) && AllEmptyLines(right)
    ensures r == FileModified <==> !AllEmptyLines(left) && !AllEmptyLines(right)
  {
    if AllEmptyLines(left) then FileAdded
    else if AllEmptyLines(right) then FileRemoved
    else FileModified
  }

  function OptIndex(i: nat, len: nat): Option<nat>
  {
    if i < len then Some(i) else None
  }

  /** `fallback_aligned_lines`: the pairing used when the tool gave no alignment. */
  function FallbackAlignedLines(left: seq<string>, right: seq<string>, status: FileStatus): (r: seq<Aligned>)
    ensures status == FileAdded ==>
      |r| == |right| && forall i :: 0 <= i < |r| ==> r[i] == Aligned(None, Some(i))
    ensures status == FileRemoved ==>
      |r| == |left| && forall i :: 0 <= i < |r| ==> r[i] == Aligned(Some(i), None)
    ensures status == FileModified ==>
      |r| == Max(|left|, |right|) &&
      forall i :: 0 <= i < |r| ==>
        (r[i].left == Some(i) <==> i < |left|) && (r[i].left.None? <==> i >= |left|) &&
        (r[i].right == Some(i) <==> i < |right|) && (r[i].right.None? <==> i >= |right|)
  {
    match status
    case FileAdded => seq(|right|, i requires 0 <= i < |right| => Aligned(None, Some(i)))
    case FileRemoved => seq(|left|, i requires 0 <= i < |left| => Aligned(Some(i), None))
    case FileModified =>
      seq(Max(|left|, |right|), i requires 0 <= i => Aligned(OptIndex(i, |left|), OptIndex(i, |right|)))
  }

  /** `normalize_change_range`: only non-empty changes become highlight ranges. */
  function NormalizeChangeRange(c: Change): (r: Option<HighlightRange>)
    ensures r.Some? <==> c.start < c.end
    ensures r.Some? ==> r.value == HighlightRange(c.start, c.end)
  {
    if c.start < c.end then Some(HighlightRange(c.start, c.end)) else None
  }

  /** The non-empty changes of a line, as ranges, in order. */
  function ValidRanges(changes: seq<Change>): (r: seq<HighlightRange>)
    ensures AllNonEmpty(r)
  {
    if |changes| == 0 then []
    else
      var init := ValidRanges(changes[..|changes| - 1]);
      var c := changes[|changes| - 1];
      if c.start < c.end then init + [HighlightRange(c.start, c.end)] else init
  }

  /** The chunk lines of all chunks, in order. */
  function Flatten(chunks: seq<seq<ChunkLine>>): seq<ChunkLine>
  {
    if |chunks| == 0 then [] else Flatten(chunks[..|chunks| - 1]) + chunks[|chunks| - 1]
  }

  /** Records one side of a chunk line in the set of changed lines. */
  function LinesStep(lines: set<nat>, o: Option<ChunkSide>): set<nat>
  {
    match o
    case Some(cs) => lines + {cs.lineNumber}
    case None => lines
  }

  /** Appends one side's non-empty changes to that line's entry of the highlight map. */
  function HighlightStep(m: map<nat, seq<HighlightRange>>, o: Option<ChunkSide>): map<nat, seq<HighlightRange>>
  {
    match o
    case Some(cs) =>
      var ranges := ValidRanges(cs.changes);
      if |ranges| == 0 then m
      else m[cs.lineNumber := (if cs.lineNumber in m then m[cs.lineNumber] else []) + ranges]
    case None => m
  }

  /** Line numbers that occur on one side of the given chunk lines. */
  function LinesOn(lines: seq<ChunkLine>, side: Side): set<nat>
  {
    if |lines| == 0 then {}
    else LinesStep(LinesOn(lines[..|lines| - 1], side), SideOf(lines[|lines| - 1], side))
  }

  /** The highlight map before merging: each line's non-empty changes, concatenated in order. */
  function RawHighlights(lines: seq<ChunkLine>, side: Side): map<nat, seq<HighlightRange>>
  {
    if |lines| == 0 then map[]
    else HighlightStep(RawHighlights(lines[..|lines| - 1], side), SideOf(lines[|lines| - 1], side))
  }

  /** The changed lines and merged highlights of both sides. */
  datatype Annotations = Annotations(
    changedLeft: set<nat>,
    changedRight: set<nat>,
    leftHighlights: map<nat, seq<HighlightRange>>,
    rightHighlights: map<nat, seq<HighlightRange>>)

  function MergedMap(raw: map<nat, seq<HighlightRange>>): map<nat, seq<HighlightRange>>
  {
    map n | n in raw :: MergedRanges(raw[n])
  }

  /** What `changed_line_annotations` computes for a list of chunks. */
  function AnnotationsOf(chunks: seq<seq<ChunkLine>>): Annotations
  {
    var lines := Flatten(chunks);
    Annotations(
      LinesOn(lines, LeftSide), LinesOn(lines, RightSide),
      MergedMap(RawHighlights(lines, LeftSide)), MergedMap(RawHighlights(lines, RightSide)))
  }

  /** Every line with a raw highlight entry occurs in the chunks, and its entry is non-empty. */
  lemma {:induction false} RawHighlightsKeys(lines: seq<ChunkLine>, side: Side)
    ensures forall n :: n in RawHighlights(lines, side) ==>
      n in LinesOn(lines, side) && |RawHighlights(lines, side)[n]| > 0 && AllNonEmpty(RawHighlights(lines, side)[n])
  {
    if |lines| > 0 {
      RawHighlightsKeys(lines[..|lines| - 1], side);
      var m := RawHighlights(lines[..|lines| - 1], side);
      match SideOf(lines[|lines| - 1], side)
      case Some(cs) =>
        var ranges := ValidRanges(cs.changes);
        if |ranges| > 0 {
          var prior := if cs.lineNumber in m then m[cs.lineNumber] else [];
          assert AllNonEmpty(prior + ranges);
        }
      case None =>
    }
  }

  /**
   * Each highlighted line of the annotations occurs in the chunks, and its
   * ranges are non-empty, ordered and separated by gaps.
   */
  lemma AnnotationsHighlightsWellFormed(chunks: seq<seq<ChunkLine>>)
    ensures var a := AnnotationsOf(chunks);
      (forall n :: n in a.leftHighlights ==>
        n in a.changedLeft && |a.leftHighlights[n]| > 0 && AllNonEmpty(a.leftHighlights[n]) && Gapped(a.leftHighlights[n])) &&
      (forall n :: n in a.rightHighlights ==>
        n in a.changedRight && |a.rightHighlights[n]| > 0 && AllNonEmpty(a.rightHighlights[n]) && Gapped(a.rightHighlights[n]))
  {
    var lines := Flatten(chunks);
    RawHighlightsKeys(lines, LeftSide);
    RawHighlightsKeys(lines, RightSide);
    forall n | n in RawHighlights(lines, LeftSide) {
      MergedRangesProperties(RawHighlights(lines, LeftSide)[n]);
    }
    forall n | n in RawHighlights(lines, RightSide) {
      MergedRangesProperties(RawHighlights(lines, RightSide)[n]);
    }
  }

  /** A highlighted position of a line is exactly a position inside one of that line's reported changes. */
  lemma AnnotationsHighlightsCoverChanges(chunks: seq<seq<ChunkLine>>, side: Side, n: nat, p: int)
    requires n in RawHighlights(Flatten(chunks), side)
    ensures var raw := RawHighlights(Flatten(chunks), side);
      Covers(MergedMap(raw)[n], p) <==> Covers(raw[n], p)
  {
    MergedRangesProperties(RawHighlights(Flatten(chunks), side)[n]);
  }

  /** `normalize_highlight_map`: replaces every entry by its merged ranges, in place. */
  method NormalizeHighlightMap(raw: map<nat, seq<HighlightRange>>) returns (hl: map<nat, seq<HighlightRange>>)
    ensures hl == MergedMap(raw)
  {
    hl := raw;
    var todo := raw.Keys;
    while todo != {}
      invariant MergedExcept(raw, hl, todo)
      decreases todo
    {
      var n :| n in todo;
      var merged := MergeHighlightRanges(hl[n]);
      MergeOne(raw, hl, todo, n, merged);
      hl := hl[n := merged];
      todo := todo - {n};
    }
    MergedAll(raw, hl);
  }

  /** The entries outside `todo` are merged, those inside it still raw. */
  ghost predicate MergedExcept(raw: map<nat, seq<HighlightRange>>, hl: map<nat, seq<HighlightRange>>, todo: set<nat>)
  {
    todo <= raw.Keys && hl.Keys == raw.Keys &&
    forall n :: n in hl ==> hl[n] == (if n in todo then raw[n] else MergedRanges(raw[n]))
  }

  lemma MergedAll(raw: map<nat, seq<HighlightRange>>, hl: map<nat, seq<HighlightRange>>)
    requires MergedExcept(raw, hl, {})
    ensures hl == MergedMap(raw)
  {
    assert hl.Keys == MergedMap(raw).Keys;
  }

  lemma MergeOne(raw: map<nat, seq<HighlightRange>>, hl: map<nat, seq<HighlightRange>>, todo: set<nat>, n: nat,
                 merged: seq<HighlightRange>)
    requires MergedExcept(raw, hl, todo) && n in todo && merged == MergedRanges(hl[n])
    ensures MergedExcept(raw, hl[n := merged], todo - {n})
  {
  }

  /** Records one side of one chunk line: its line number, and its non-empty changes if any. */
  method RecordSide(lines: set<nat>, hl: map<nat, seq<HighlightRange>>, o: Option<ChunkSide>)
    returns (lines': set<nat>, hl': map<nat, seq<HighlightRange>>)
    ensures lines' == LinesStep(lines, o) && hl' == HighlightStep(hl, o)
  {
    lines', hl' := lines, hl;
    if o.Some? {
      var cs := o.value;
      lines' := lines' + {cs.lineNumber};
      var ranges := ValidRanges(cs.changes);
      if |ranges| > 0 {
        hl' := hl'[cs.lineNumber := (if cs.lineNumber in hl' then hl'[cs.lineNumber] else []) + ranges];
      }
    }
  }

  lemma FlattenSnoc(chunks: seq<seq<ChunkLine>>, c: nat)
    requires c < |chunks|
    ensures Flatten(chunks[..c + 1]) == Flatten(chunks[..c]) + chunks[c]
  {
    assert chunks[..c + 1][..c] == chunks[..c];
  }

  lemma PrefixSnoc(done: seq<ChunkLine>, chunk: seq<ChunkLine>, k: nat)
    requires k < |chunk|
    ensures var s := done + chunk[..k + 1];
      s[..|s| - 1] == done + chunk[..k] && s[|s| - 1] == chunk[k]
  {
  }

  /** `changed_line_annotations`: walks every chunk line, recording changed lines and their ranges. */
  method ChangedLineAnnotations(entry: RawFile) returns (a: Annotations)
    ensures a == AnnotationsOf(entry.chunks)
  {
    var left: set<nat> := {};
    var right: set<nat> := {};
    var leftHl: map<nat, seq<HighlightRange>> := map[];
    var rightHl: map<nat, seq<HighlightRange>> := map[];
    var c := 0;
    while c < |entry.chunks|
      invariant 0 <= c <= |entry.chunks|
      invariant left == LinesOn(Flatten(entry.chunks[..c]), LeftSide)
      invariant right == LinesOn(Flatten(entry.chunks[..c]), RightSide)
      invariant leftHl == RawHighlights(Flatten(entry.chunks[..c]), LeftSide)
      invariant rightHl == RawHighlights(Flatten(entry.chunks[..c]), RightSide)
    {
      var chunk := entry.chunks[c];
      ghost var done := Flatten(entry.chunks[..c]);
      FlattenSnoc(entry.chunks, c);
      var k := 0;
      assert done + chunk[..0] == done;
      while k < |chunk|
        invariant 0 <= k <= |chunk|
        invariant left == LinesOn(done + chunk[..k], LeftSide)
        invariant right == LinesOn(done + chunk[..k], RightSide)
        invariant leftHl == RawHighlights(done + chunk[..k], LeftSide)
        invariant rightHl == RawHighlights(done + chunk[..k], RightSide)
      {
        PrefixSnoc(done, chunk, k);
        left, leftHl := RecordSide(left, leftHl, chunk[k].lhs);
        right, rightHl := RecordSide(right, rightHl, chunk[k].rhs);
        k := k + 1;
      }
      assert chunk[..k] == chunk;
      c := c + 1;
    }
    assert entry.chunks[..c] == entry.chunks;
    leftHl := NormalizeHighlightMap(leftHl);
    rightHl := NormalizeHighlightMap(rightHl);
    a := Annotations(left, right, leftHl, rightHl);
  }

  /** `classify_row_kind`. */
  function ClassifyRowKind(left: Option<nat>, right: Option<nat>, changedLeft: set<nat>, changedRight: set<nat>): (r: RowKind)
    ensures r == Added <==> left.None? && right.Some?
    ensures r == Removed <==> left.Some? && right.None?
    ensures r == Modified <==> left.Some? && right.Some? && (left.value in changedLeft || right.value in changedRight)
    ensures r == Context <==> ((left.None? && right.None?) ||
      (left.Some? && right.Some? && left.value !in changedLeft && right.value !in changedRight))
  {
    match (left, right)
    case (None, Some(_)) => Added
    case (Some(_), None) => Removed
    case (Some(l), Some(r)) => if l in changedLeft || r in changedRight then Modified else Context
    case (None, None) => Context
  }

  // ---------------------------------------------------------------------
  // Hunk starts, the terminal empty row, and the file builder
  // ---------------------------------------------------------------------

  /** An aligned pair touches a chunk when either side's line is one of the chunk's lines. */
  predicate Hits(pair: Aligned, left: set<nat>, right: set<nat>)
  {
    (pair.left.Some? && pair.left.value in left) || (pair.right.Some? && pair.right.value in right)
  }

  /** The first aligned index that touches the given lines (`find_map` over the alignment). */
  function FirstHit(aligned: seq<Aligned>, left: set<nat>, right: set<nat>): (r: Option<nat>)
    ensures r.Some? ==> r.value < |aligned| && Hits(aligned[r.value], left, right)
    ensures r.Some? ==> forall j :: 0 <= j < r.value ==> !Hits(aligned[j], left, right)
    ensures r.None? ==> forall j :: 0 <= j < |aligned| ==> !Hits(aligned[j], left, right)
  {
    if |aligned| == 0 then None
    else if Hits(aligned[0], left, right) then Some(0)
    else
      match FirstHit(aligned[1..], left, right)
      case Some(i) => Some(i + 1)
      case None => None
  }

  /** The row at which a chunk starts: the first aligned pair touching one of its lines. */
  function ChunkStart(aligned: seq<Aligned>, chunk: seq<ChunkLine>): Option<nat>
  {
    FirstHit(aligned, LinesOn(chunk, LeftSide), LinesOn(chunk, RightSide))
  }

  /** Some chunk starts at the given row. */
  predicate IsChunkStart(aligned: seq<Aligned>, chunks: seq<seq<ChunkLine>>, row: nat)
  {
    exists c :: 0 <= c < |chunks| && ChunkStart(aligned, chunks[c]) == Some(row)
  }

  /** One chunk's turn: its start is kept when it differs from the last kept start and lies before `limit`. */
  function StartsStep(starts: seq<nat>, start: Option<nat>, limit: nat): seq<nat>
  {
    if start.Some? && (|starts| == 0 || starts[|starts| - 1] != start.value) && start.value < limit
    then starts + [start.value]
    else starts
  }

  /** The hunk start rows of the chunks, taken in order. */
  function HunkStarts(limit: nat, aligned: seq<Aligned>, chunks: seq<seq<ChunkLine>>): seq<nat>
    decreases |chunks|
  {
    if |chunks| == 0 then []
    else StartsStep(HunkStarts(limit, aligned, chunks[..|chunks| - 1]), ChunkStart(aligned, chunks[|chunks| - 1]), limit)
  }

  /** The hunk starts lie before `limit` and no two adjacent ones are equal. */
  lemma {:induction false} HunkStartsShape(limit: nat, aligned: seq<Aligned>, chunks: seq<seq<ChunkLine>>)
    ensures forall k :: 0 <= k < |HunkStarts(limit, aligned, chunks)| ==> HunkStarts(limit, aligned, chunks)[k] < limit
    ensures forall k :: 0 <= k < |HunkStarts(limit, aligned, chunks)| - 1 ==>
      HunkStarts(limit, aligned, chunks)[k] != HunkStarts(limit, aligned, chunks)[k + 1]
    decreases |chunks|
  {
    if |chunks| > 0 {
      var init := chunks[..|chunks| - 1];
      HunkStartsShape(limit, aligned, init);
      var before := HunkStarts(limit, aligned, init);
      assert HunkStarts(limit, aligned, chunks) == StartsStep(before, ChunkStart(aligned, chunks[|chunks| - 1]), limit);
    }
  }

  /** Each hunk start is the start row of some chunk. */
  lemma {:induction false} HunkStartsSound(limit: nat, aligned: seq<Aligned>, chunks: seq<seq<ChunkLine>>)
    ensures forall k :: 0 <= k < |HunkStarts(limit, aligned, chunks)| ==>
      IsChunkStart(aligned, chunks, HunkStarts(limit, aligned, chunks)[k])
    decreases |chunks|
  {
    if |chunks| > 0 {
      var init := chunks[..|chunks| - 1];
      HunkStartsSound(limit, aligned, init);
      var before := HunkStarts(limit, aligned, init);
      var starts := HunkStarts(limit, aligned, chunks);
      assert starts == StartsStep(before, ChunkStart(aligned, chunks[|chunks| - 1]), limit);
      forall k | 0 <= k < |starts|
        ensures IsChunkStart(aligned, chunks, starts[k])
      {
        if k < |before| {
          assert starts[k] == before[k] && IsChunkStart(aligned, init, before[k]);
          var d :| 0 <= d < |init| && ChunkStart(aligned, init[d]) == Some(before[k]);
          assert chunks[d] == init[d];
        } else {
          assert ChunkStart(aligned, chunks[|chunks| - 1]) == Some(starts[k]);
        }
      }
    }
  }

  /** Every chunk whose start row lies before `limit` has that row among the hunk starts. */
  lemma {:induction false} HunkStartsComplete(limit: nat, aligned: seq<Aligned>, chunks: seq<seq<ChunkLine>>)
    ensures forall c :: (0 <= c < |chunks| && ChunkStart(aligned, chunks[c]).Some? &&
      ChunkStart(aligned, chunks[c]).value < limit) ==> ChunkStart(aligned, chunks[c]).value in HunkStarts(limit, aligned, chunks)
    decreases |chunks|
  {
    if |chunks| > 0 {
      var init := chunks[..|chunks| - 1];
      HunkStartsComplete(limit, aligned, init);
      var before := HunkStarts(limit, aligned, init);
      var starts := HunkStarts(limit, aligned, chunks);
      assert forall x :: x in before ==> x in starts;
      forall c | 0 <= c < |chunks| && ChunkStart(aligned, chunks[c]).Some? && ChunkStart(aligned, chunks[c]).value < limit
        ensures ChunkStart(aligned, chunks[c]).value in starts
      {
        if c < |init| {
          assert chunks[c] == init[c];
        }
      }
    }
  }

  /**
   * `hunk_row_starts`: the start row of each chunk, skipping a start equal to
   * the previous one and any start past the last row.
   */
  method HunkRowStarts(rows: seq<DiffRow>, aligned: seq<Aligned>, chunks: seq<seq<ChunkLine>>) returns (starts: seq<nat>)
    ensures starts == HunkStarts(|rows|, aligned, chunks)
  {
    starts := [];
    var c := 0;
    while c < |chunks|
      invariant 0 <= c <= |chunks|
      invariant starts == HunkStarts(|rows|, aligned, chunks[..c])
    {
      var leftLines := LinesOn(chunks[c], LeftSide);
      var rightLines := LinesOn(chunks[c], RightSide);
      var rowIndex := FirstHit(aligned, leftLines, rightLines);
      if rowIndex.Some? && (|starts| == 0 || starts[|starts| - 1] != rowIndex.value) && rowIndex.value < |rows| {
        starts := starts + [rowIndex.value];
      }
      assert chunks[..c + 1][..c] == chunks[..c];
      c := c + 1;
    }
    assert chunks[..c] == chunks;
  }

  /** A row with no text on either side that still carries both line numbers. */
  predicate IsTerminalEmptyRow(row: DiffRow)
  {
    row.leftText == [] && row.rightText == [] && row.leftLine.Some? && row.rightLine.Some?
  }

  /** `trim_terminal_empty_row`: drops the last row, and only it, when it is an empty numbered row. */
  function TrimTerminalEmptyRow(rows: seq<DiffRow>): (r: seq<DiffRow>)
    ensures r <= rows && |rows| - 1 <= |r|
    ensures |r| < |rows| <==> |rows| > 0 && IsTerminalEmptyRow(rows[|rows| - 1])
  {
    if |rows| > 0 && IsTerminalEmptyRow(rows[|rows| - 1]) then rows[..|rows| - 1] else rows
  }

  /** The text of a 0-based line index, or "" when the index is absent or out of range. */
  function LineText(lines: seq<string>, index: Option<nat>): string
  {
    if index.Some? && index.value < |lines| then lines[index.value] else ""
  }

  function HighlightsAt(hl: map<nat, seq<HighlightRange>>, index: Option<nat>): seq<HighlightRange>
  {
    if index.Some? && index.value in hl then hl[index.value] else []
  }

  function LineNumber(index: Option<nat>): Option<nat>
  {
    if index.Some? then Some(index.value + 1) else None
  }

  /** The row built for one aligned pair. */
  function RowFor(pair: Aligned, left: seq<string>, right: seq<string>, a: Annotations): DiffRow
  {
    DiffRow(
      LineNumber(pair.left), LineNumber(pair.right),
      LineText(left, pair.left), LineText(right, pair.right),
      HighlightsAt(a.leftHighlights, pair.left), HighlightsAt(a.rightHighlights, pair.right),
      ClassifyRowKind(pair.left, pair.right, a.changedLeft, a.changedRight))
  }

  /** The file status: the tool's, or the fallback when the tool reported nothing. */
  function StatusFor(left: seq<string>, right: seq<string>, parsed: Option<RawFile>): FileStatus
  {
    if parsed.Some? then StatusFromDifft(parsed.value.status) else FallbackStatus(left, right)
  }

  /** The alignment: the tool's when non-empty, else the fallback for the status. */
  function AlignedFor(left: seq<string>, right: seq<string>, parsed: Option<RawFile>): seq<Aligned>
  {
    if parsed.Some? && |parsed.value.alignedLines| > 0 then parsed.value.alignedLines
    else FallbackAlignedLines(left, right, StatusFor(left, right, parsed))
  }

  function AnnotationsFor(parsed: Option<RawFile>): Annotations
  {
    if parsed.Some? then AnnotationsOf(parsed.value.chunks) else Annotations({}, {}, map[], map[])
  }

  /** The rows of the aligned pairs: one per pair, in order. */
  function AlignedRows(aligned: seq<Aligned>, left: seq<string>, right: seq<string>, a: Annotations): (r: seq<DiffRow>)
    ensures |r| == |aligned|
  {
    seq(|aligned|, j requires 0 <= j < |aligned| => RowFor(aligned[j], left, right, a))
  }

  /** The hunk starts `build_diff_file` keeps for `rowCount` rows: the tool's chunk starts, or hunk 0 when there are none. */
  function HunkStartsFor(rowCount: nat, aligned: seq<Aligned>, parsed: Option<RawFile>): seq<nat>
  {
    var starts := if parsed.Some? then HunkStarts(rowCount, aligned, parsed.value.chunks) else [];
    if starts == [] && rowCount > 0 then [0] else starts
  }

  /** The row-building loop of `build_diff_file`: one row per aligned pair, in order. */
  method BuildRows(aligned: seq<Aligned>, left: seq<string>, right: seq<string>, annotations: Annotations)
    returns (rows: seq<DiffRow>)
    ensures |rows| == |aligned|
    ensures forall j :: 0 <= j < |rows| ==> rows[j] == RowFor(aligned[j], left, right, annotations)
  {
    rows := [];
    var i := 0;
    while i < |aligned|
      invariant 0 <= i <= |aligned| && |rows| == i
      invariant forall j :: 0 <= j < i ==> rows[j] == RowFor(aligned[j], left, right, annotations)
    {
      var pair := aligned[i];
      var row := DiffRow(
        LineNumber(pair.left), LineNumber(pair.right),
        LineText(left, pair.left), LineText(right, pair.right),
        HighlightsAt(annotations.leftHighlights, pair.left), HighlightsAt(annotations.rightHighlights, pair.right),
        ClassifyRowKind(pair.left, pair.right, annotations.changedLeft, annotations.changedRight));
      rows := rows + [row];
      i := i + 1;
    }
  }

  /**
   * `build_diff_file`: one row per aligned pair (less a terminal empty row),
   * the status, and the hunk starts, with hunk 0 when the tool gave none.
   */
  method BuildDiffFile(path: string, source: SourcePair, parsed: Option<RawFile>) returns (file: DiffFile)
    ensures var left := Split(source.base, '\n');
      var right := Split(source.head, '\n');
      var aligned := AlignedFor(left, right, parsed);
      file.path == path &&
      file.status == StatusFor(left, right, parsed) &&
      (|file.rows| == |aligned| || |file.rows| + 1 == |aligned|) &&
      (forall i :: 0 <= i < |file.rows| ==> file.rows[i] == RowFor(aligned[i], left, right, AnnotationsFor(parsed))) &&
      file.rows == TrimTerminalEmptyRow(AlignedRows(aligned, left, right, AnnotationsFor(parsed))) &&
      file.hunkStarts == HunkStartsFor(|file.rows|, aligned, parsed) &&
      (file.hunkStarts == [0] ||
       (parsed.Some? && forall k :: 0 <= k < |file.hunkStarts| ==>
          IsChunkStart(aligned, parsed.value.chunks, file.hunkStarts[k])))
    ensures |file.hunkStarts| > 0 <==> |file.rows| > 0
    ensures forall k :: 0 <= k < |file.hunkStarts| ==> file.hunkStarts[k] < |file.rows|
  {
    var left := Split(source.base, '\n');
    var right := Split(source.head, '\n');
    var status := StatusFor(left, right, parsed);
    var aligned := AlignedFor(left, right, parsed);
    var rows := FileRowsFor(aligned, left, right, parsed);
    var hunkStarts := FileHunkStarts(rows, aligned, parsed);
    file := DiffFile(path, status, rows, hunkStarts);
  }

  /** The rows of `build_diff_file`: one per aligned pair, less a terminal empty row. */
  method FileRowsFor(aligned: seq<Aligned>, left: seq<string>, right: seq<string>, parsed: Option<RawFile>)
    returns (rows: seq<DiffRow>)
    requires |left| > 0 && |right| > 0
    ensures |rows| == |aligned| || |rows| + 1 == |aligned|
    ensures forall i :: 0 <= i < |rows| ==> rows[i] == RowFor(aligned[i], left, right, AnnotationsFor(parsed))
    ensures parsed.None? && aligned == AlignedFor(left, right, parsed) ==> |rows| > 0
    ensures rows == TrimTerminalEmptyRow(AlignedRows(aligned, left, right, AnnotationsFor(parsed)))
  {
    var annotations := Annotations({}, {}, map[], map[]);
    if parsed.Some? {
      annotations := ChangedLineAnnotations(parsed.value);
    }
    var built := BuildRows(aligned, left, right, annotations);
    assert built == AlignedRows(aligned, left, right, AnnotationsFor(parsed));
    rows := TrimTerminalEmptyRow(built);
    if parsed.None? && aligned == AlignedFor(left, right, parsed) {
      FallbackRowsKept(left, right, aligned, built, annotations);
    }
  }

  /**
   * Without the tool's report the rows never all vanish: a lone fallback row
   * either lacks a line number on one side or carries a non-empty line.
   */
  lemma FallbackRowsKept(left: seq<string>, right: seq<string>, aligned: seq<Aligned>, built: seq<DiffRow>,
                         annotations: Annotations)
    requires |left| > 0 && |right| > 0
    requires aligned == FallbackAlignedLines(left, right, FallbackStatus(left, right))
    requires |built| == |aligned|
    requires forall j :: 0 <= j < |built| ==> built[j] == RowFor(aligned[j], left, right, annotations)
    ensures |TrimTerminalEmptyRow(built)| > 0
  {
    if |built| == 1 {
      var status := FallbackStatus(left, right);
      if status == FileModified {
        assert left[0] != [];
        assert built[0].leftText == left[0];
      }
      assert !IsTerminalEmptyRow(built[0]);
    }
  }

  /** The hunk starts of `build_diff_file`: those of the chunks, or hunk 0 when the tool gave none. */
  method FileHunkStarts(rows: seq<DiffRow>, aligned: seq<Aligned>, parsed: Option<RawFile>) returns (hunkStarts: seq<nat>)
    requires parsed.None? ==> |rows| > 0
    ensures hunkStarts == [0] ||
      (parsed.Some? && forall k :: 0 <= k < |hunkStarts| ==> IsChunkStart(aligned, parsed.value.chunks, hunkStarts[k]))
    ensures |hunkStarts| > 0 <==> |rows| > 0
    ensures forall k :: 0 <= k < |hunkStarts| ==> hunkStarts[k] < |rows|
    ensures hunkStarts == HunkStartsFor(|rows|, aligned, parsed)
  {
    hunkStarts := [];
    if parsed.Some? {
      hunkStarts := HunkRowStarts(rows, aligned, parsed.value.chunks);
      HunkStartsShape(|rows|, aligned, parsed.value.chunks);
      HunkStartsSound(|rows|, aligned, parsed.value.chunks);
      assert |hunkStarts| > 0 ==> hunkStarts[0] < |rows|;
    }
    if |hunkStarts| == 0 && |rows| > 0 {
      hunkStarts := hunkStarts + [0];
    }
  }
}
