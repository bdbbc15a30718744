/**
 * The changed-files pane: the diff's file paths gathered into a directory
 * tree (children in name order, files sorted by path), flattened into rows
 * with single-child directory chains compressed into one row, and filtered
 * by a query while keeping the enclosing directories.
 */
module DiffTree {
  import opened Wrappers
  import opened Text
  import opened Seqs
  import opened Order
  import opened TreeFilter
  import opened ThreadSearch
  import opened Domain

  /** One row of the changed-files pane. */
  datatype DiffTreeRow = DiffTreeRow(
    key: string,
    name: string,
    depth: nat,
    isDirectory: bool,
    isCollapsed: bool,
    fileIndex: Option<nat>)

  /** A directory: its sub-directories by name and the indices of the diff files directly in it. */
  datatype Dir = Dir(children: seq<Child>, files: seq<nat>)

  /** One entry of a directory's children map. */
  datatype Child = Child(segment: string, node: Dir)

  const EmptyDir := Dir([], [])
  const FilePrefix := "file:"

  /** Number of directories in a tree, a measure for the walks over it. */
  function Size(d: Dir): nat
    decreases d, 1
  {
    1 + SizeAll(d.children)
  }

  function SizeAll(cs: seq<Child>): nat
    decreases cs, 0
  {
    if |cs| == 0 then 0 else 1 + Size(cs[0].node) + SizeAll(cs[1..])
  }

  // ---------------------------------------------------------------------
  // The children map (`BTreeMap<String, DiffTreeNode>`): kept sorted by name.

  predicate StrLt(a: string, b: string)
  {
    StrLe(a, b) && a != b
  }

  lemma StrLtTrans(a: string, b: string, c: string)
    requires StrLt(a, b) && StrLt(b, c)
    ensures StrLt(a, c)
  {
    StrLeTrans(a, b, c);
    if a == c {
      StrLeAntisym(b, c);
    }
  }

  /** Every name in `cs` comes strictly after `s`. */
  predicate AllAbove(cs: seq<Child>, s: string)
  {
    forall i :: 0 <= i < |cs| ==> StrLt(s, cs[i].segment)
  }

  /** The names strictly increase, as a `BTreeMap` iterates them. */
  predicate Increasing(cs: seq<Child>)
  {
    |cs| == 0 || (AllAbove(cs[1..], cs[0].segment) && Increasing(cs[1..]))
  }

  /** `entry(seg).or_default()` read side: the child named `seg`, or an empty directory. */
  function ChildOr(cs: seq<Child>, seg: string): Dir
  {
    if |cs| == 0 then EmptyDir
    else if cs[0].segment == seg then cs[0].node
    else if StrLt(seg, cs[0].segment) then EmptyDir
    else ChildOr(cs[1..], seg)
  }

  /** Stores `d` under `seg`: replaces the child of that name or inserts it in name order. */
  function PutChild(cs: seq<Child>, seg: string, d: Dir): seq<Child>
  {
    if |cs| == 0 then [Child(seg, d)]
    else if cs[0].segment == seg then [Child(seg, d)] + cs[1..]
    else if StrLt(seg, cs[0].segment) then [Child(seg, d)] + cs
    else [cs[0]] + PutChild(cs[1..], seg, d)
  }

  /** Reading a name just stored gives what was stored. */
  lemma {:induction false} ChildOrPutChild(cs: seq<Child>, seg: string, d: Dir)
    ensures ChildOr(PutChild(cs, seg, d), seg) == d
  {
    if |cs| > 0 && cs[0].segment != seg && !StrLt(seg, cs[0].segment) {
      ChildOrPutChild(cs[1..], seg, d);
      assert ([cs[0]] + PutChild(cs[1..], seg, d))[1..] == PutChild(cs[1..], seg, d);
    }
  }

  /** Storing a name above `s` keeps every name above `s`. */
  lemma {:induction false} PutChildAbove(cs: seq<Child>, s: string, seg: string, d: Dir)
    requires AllAbove(cs, s) && StrLt(s, seg)
    ensures AllAbove(PutChild(cs, seg, d), s)
  {
    if |cs| > 0 && cs[0].segment != seg && !StrLt(seg, cs[0].segment) {
      PutChildAbove(cs[1..], s, seg, d);
      var r := [cs[0]] + PutChild(cs[1..], seg, d);
      forall i | 0 <= i < |r| ensures StrLt(s, r[i].segment) {
        if i > 0 {
          assert r[i] == PutChild(cs[1..], seg, d)[i - 1];
        }
      }
    }
  }

  /** Storing a child keeps the names strictly increasing. */
  lemma {:induction false} PutChildIncreasing(cs: seq<Child>, seg: string, d: Dir)
    requires Increasing(cs)
    ensures Increasing(PutChild(cs, seg, d))
  {
    if |cs| == 0 {
      assert [Child(seg, d)][1..] == [];
    } else if cs[0].segment == seg {
      assert ([Child(seg, d)] + cs[1..])[1..] == cs[1..];
    } else if StrLt(seg, cs[0].segment) {
      var r := [Child(seg, d)] + cs;
      assert r[1..] == cs;
      forall i | 0 <= i < |cs| ensures StrLt(seg, cs[i].segment) {
        if i > 0 {
          assert cs[1..][i - 1] == cs[i];
          StrLtTrans(seg, cs[0].segment, cs[i].segment);
        }
      }
    } else {
      PutChildIncreasing(cs[1..], seg, d);
      StrLeTotal(seg, cs[0].segment);
      PutChildAbove(cs[1..], cs[0].segment, seg, d);
      assert ([cs[0]] + PutChild(cs[1..], seg, d))[1..] == PutChild(cs[1..], seg, d);
    }
  }

  /** The file indices anywhere in a tree, counted with repetition. */
  function AllFiles(d: Dir): multiset<nat>
    decreases d, 1
  {
    multiset(d.files) + AllFilesIn(d.children)
  }

  function AllFilesIn(cs: seq<Child>): multiset<nat>
    decreases cs, 0
  {
    if |cs| == 0 then multiset{} else AllFiles(cs[0].node) + AllFilesIn(cs[1..])
  }

  lemma AllFilesInCons(c: Child, t: seq<Child>)
    ensures AllFilesIn([c] + t) == AllFiles(c.node) + AllFilesIn(t)
  {
    assert ([c] + t)[1..] == t;
  }

  /** Storing a child exchanges the files of the child it replaces (or of an empty one) for its own. */
  lemma {:induction false} PutChildFiles(cs: seq<Child>, seg: string, d: Dir)
    ensures AllFilesIn(PutChild(cs, seg, d)) + AllFiles(ChildOr(cs, seg)) == AllFilesIn(cs) + AllFiles(d)
  {
    if |cs| == 0 {
      AllFilesInCons(Child(seg, d), []);
    } else if cs[0].segment == seg {
      AllFilesInCons(Child(seg, d), cs[1..]);
    } else if StrLt(seg, cs[0].segment) {
      AllFilesInCons(Child(seg, d), cs);
    } else {
      var tail := PutChild(cs[1..], seg, d);
      PutChildFiles(cs[1..], seg, d);
      AllFilesInCons(cs[0], tail);
      assert PutChild(cs, seg, d) == [cs[0]] + tail;
      assert ChildOr(cs, seg) == ChildOr(cs[1..], seg);
      assert AllFilesIn(cs) == AllFiles(cs[0].node) + AllFilesIn(cs[1..]);
      var a, t, c := AllFiles(cs[0].node), AllFilesIn(tail), AllFiles(ChildOr(cs, seg));
      assert (a + t) + c == a + (t + c);
    }
  }

  // ---------------------------------------------------------------------
  // Building the tree.

  /** The non-empty `/`-separated segments of a path. */
  function PathSegments(path: string): (r: seq<string>)
    ensures forall k :: 0 <= k < |r| ==> |r[k]| > 0 && '/' !in r[k]
  {
    NonEmpty(Split(path, '/'))
  }

  function NonEmpty(parts: seq<string>): (r: seq<string>)
    requires forall k :: 0 <= k < |parts| ==> '/' !in parts[k]
    ensures forall k :: 0 <= k < |r| ==> |r[k]| > 0 && '/' !in r[k]
  {
    if |parts| == 0 then []
    else
      var rest := NonEmpty(parts[1..]);
      if |parts[0]| == 0 then rest else [parts[0]] + rest
  }

  /** Adds file `index` in the directory reached by following `segs` from `d`, creating directories on the way. */
  function InsertAt(d: Dir, segs: seq<string>, index: nat): Dir
    decreases |segs|
  {
    if |segs| == 0 then Dir(d.children, d.files + [index])
    else Dir(PutChild(d.children, segs[0], InsertAt(ChildOr(d.children, segs[0]), segs[1..], index)), d.files)
  }

  /**
   * `insert_diff_path`: a path of zero or one segments is a file of the
   * root; otherwise the file goes in the directory named by all segments
   * but the last.
   */
  function InsertDiffPath(root: Dir, path: string, index: nat): Dir
  {
    var parts := PathSegments(path);
    if |parts| == 0 then Dir(root.children, root.files + [index])
    else if |parts| == 1 then Dir(root.children, root.files + [index])
    else InsertAt(root, parts[..|parts| - 1], index)
  }

  /** Names stay in order in every directory of the tree. */
  predicate Ordered(d: Dir)
    decreases d, 1
  {
    Increasing(d.children) && OrderedAll(d.children)
  }

  predicate OrderedAll(cs: seq<Child>)
    decreases cs, 0
  {
    |cs| == 0 || (Ordered(cs[0].node) && OrderedAll(cs[1..]))
  }

  lemma {:induction false} ChildOrOrdered(cs: seq<Child>, seg: string)
    requires OrderedAll(cs)
    ensures Ordered(ChildOr(cs, seg))
  {
    if |cs| > 0 && cs[0].segment != seg && !StrLt(seg, cs[0].segment) {
      ChildOrOrdered(cs[1..], seg);
    }
  }

  lemma {:induction false} PutChildOrdered(cs: seq<Child>, seg: string, d: Dir)
    requires OrderedAll(cs) && Ordered(d)
    ensures OrderedAll(PutChild(cs, seg, d))
  {
    if |cs| > 0 && cs[0].segment == seg {
      assert ([Child(seg, d)] + cs[1..])[1..] == cs[1..];
    } else if |cs| > 0 && StrLt(seg, cs[0].segment) {
      assert ([Child(seg, d)] + cs)[1..] == cs;
    } else if |cs| > 0 {
      PutChildOrdered(cs[1..], seg, d);
      assert ([cs[0]] + PutChild(cs[1..], seg, d))[1..] == PutChild(cs[1..], seg, d);
    }
  }

  /** Inserting a path adds exactly that one file index. */
  lemma {:induction false} InsertAtFiles(d: Dir, segs: seq<string>, index: nat)
    ensures AllFiles(InsertAt(d, segs, index)) == AllFiles(d) + multiset{index}
    decreases |segs|
  {
    if |segs| == 0 {
      assert multiset(d.files + [index]) == multiset(d.files) + multiset{index};
    } else {
      var child := ChildOr(d.children, segs[0]);
      InsertAtFiles(child, segs[1..], index);
      var nd := InsertAt(child, segs[1..], index);
      var pc := PutChild(d.children, segs[0], nd);
      PutChildFiles(d.children, segs[0], nd);
      assert InsertAt(d, segs, index) == Dir(pc, d.files);
      Cancel(AllFilesIn(pc), AllFilesIn(d.children), AllFiles(child), multiset{index});
    }
  }

  /** `a + c == b + (c + e)` leaves `a == b + e`. */
  lemma Cancel(a: multiset<nat>, b: multiset<nat>, c: multiset<nat>, e: multiset<nat>)
    requires a + c == b + (c + e)
    ensures a == b + e
  {
    forall x ensures a[x] == (b + e)[x] {
      assert (a + c)[x] == (b + (c + e))[x];
    }
  }

  /** Inserting a path keeps every directory's names in order. */
  lemma {:induction false} InsertAtOrdered(d: Dir, segs: seq<string>, index: nat)
    requires Ordered(d)
    ensures Ordered(InsertAt(d, segs, index))
    decreases |segs|
  {
    if |segs| > 0 {
      var child := ChildOr(d.children, segs[0]);
      ChildOrOrdered(d.children, segs[0]);
      InsertAtOrdered(child, segs[1..], index);
      var nd := InsertAt(child, segs[1..], index);
      PutChildIncreasing(d.children, segs[0], nd);
      PutChildOrdered(d.children, segs[0], nd);
    }
  }

  lemma InsertDiffPathSpec(root: Dir, path: string, index: nat)
    requires Ordered(root)
    ensures AllFiles(InsertDiffPath(root, path, index)) == AllFiles(root) + multiset{index}
    ensures Ordered(InsertDiffPath(root, path, index))
  {
    var parts := PathSegments(path);
    if |parts| > 1 {
      InsertAtFiles(root, parts[..|parts| - 1], index);
      InsertAtOrdered(root, parts[..|parts| - 1], index);
    } else {
      assert multiset(root.files + [index]) == multiset(root.files) + multiset{index};
    }
  }

  /** The tree after inserting the first `|paths|` files, in order. */
  function TreeOf(paths: seq<string>): Dir
  {
    if |paths| == 0 then EmptyDir else InsertDiffPath(TreeOf(paths[..|paths| - 1]), paths[|paths| - 1], |paths| - 1)
  }

  /** 0, 1, ..., n - 1. */
  function Range(n: nat): (r: seq<nat>)
    ensures |r| == n && forall i :: 0 <= i < n ==> r[i] == i
  {
    seq(n, i requires 0 <= i < n => i)
  }

  lemma RangeSnoc(n: nat)
    ensures multiset(Range(n + 1)) == multiset(Range(n)) + multiset{n}
  {
    assert Range(n + 1) == Range(n) + [n];
  }

  /** Each diff file is in the tree exactly once, and the tree is ordered. */
  lemma {:induction false} TreeOfSpec(paths: seq<string>)
    ensures AllFiles(TreeOf(paths)) == multiset(Range(|paths|))
    ensures Ordered(TreeOf(paths))
  {
    if |paths| > 0 {
      var n := |paths| - 1;
      TreeOfSpec(paths[..n]);
      InsertDiffPathSpec(TreeOf(paths[..n]), paths[n], n);
      RangeSnoc(n);
    }
  }

  // ---------------------------------------------------------------------
  // Sorting the files of every directory by path.

  /** The sort key: the path of diff file `i` (every index in the tree names a file). */
  function PathOf(paths: seq<string>, i: nat): string
  {
    if i < |paths| then paths[i] else []
  }

  function PathKey(paths: seq<string>): nat -> string
  {
    (i: nat) => PathOf(paths, i)
  }

  /** `sort_diff_tree_files`: every directory's files stably sorted by path. */
  function SortTree(d: Dir, paths: seq<string>): Dir
    decreases d, 1
  {
    Dir(SortChildren(d.children, paths), SortBy(d.files, PathKey(paths)))
  }

  function SortChildren(cs: seq<Child>, paths: seq<string>): (r: seq<Child>)
    ensures |r| == |cs| && forall i :: 0 <= i < |cs| ==> r[i].segment == cs[i].segment
    decreases cs, 0
  {
    if |cs| == 0 then [] else [Child(cs[0].segment, SortTree(cs[0].node, paths))] + SortChildren(cs[1..], paths)
  }

  /** Every directory's files are in path order. */
  predicate FilesSorted(d: Dir, paths: seq<string>)
    decreases d, 1
  {
    SortedBy(d.files, PathKey(paths)) && FilesSortedAll(d.children, paths)
  }

  predicate FilesSortedAll(cs: seq<Child>, paths: seq<string>)
    decreases cs, 0
  {
    |cs| == 0 || (FilesSorted(cs[0].node, paths) && FilesSortedAll(cs[1..], paths))
  }

  /** Sorting keeps the same files. */
  lemma {:induction false} SortTreeFiles(d: Dir, paths: seq<string>)
    ensures AllFiles(SortTree(d, paths)) == AllFiles(d)
    decreases d, 1
  {
    SortChildrenFiles(d.children, paths);
  }

  lemma {:induction false} SortChildrenFiles(cs: seq<Child>, paths: seq<string>)
    ensures AllFilesIn(SortChildren(cs, paths)) == AllFilesIn(cs)
    decreases cs, 0
  {
    if |cs| > 0 {
      SortTreeFiles(cs[0].node, paths);
      SortChildrenFiles(cs[1..], paths);
      AllFilesInCons(Child(cs[0].segment, SortTree(cs[0].node, paths)), SortChildren(cs[1..], paths));
    }
  }

  /** Whether names increase depends on the names only. */
  lemma {:induction false} IncreasingSameNames(a: seq<Child>, b: seq<Child>)
    requires Increasing(a) && |a| == |b| && forall i :: 0 <= i < |a| ==> a[i].segment == b[i].segment
    ensures Increasing(b)
  {
    if |a| > 0 {
      IncreasingSameNames(a[1..], b[1..]);
      forall i | 0 <= i < |b| - 1 ensures StrLt(b[0].segment, b[1..][i].segment) {
        assert a[1..][i].segment == b[1..][i].segment;
      }
    }
  }

  /** Sorting keeps every directory's names in order. */
  lemma {:induction false} SortTreeOrdered(d: Dir, paths: seq<string>)
    requires Ordered(d)
    ensures Ordered(SortTree(d, paths))
    decreases d, 1
  {
    SortChildrenOrdered(d.children, paths);
    IncreasingSameNames(d.children, SortChildren(d.children, paths));
  }

  lemma {:induction false} SortChildrenOrdered(cs: seq<Child>, paths: seq<string>)
    requires OrderedAll(cs)
    ensures OrderedAll(SortChildren(cs, paths))
    decreases cs, 0
  {
    if |cs| > 0 {
      SortTreeOrdered(cs[0].node, paths);
      SortChildrenOrdered(cs[1..], paths);
      var r := SortChildren(cs, paths);
      assert r[1..] == SortChildren(cs[1..], paths);
    }
  }

  /** After sorting, every directory's files are in path order. */
  lemma {:induction false} SortTreeSorted(d: Dir, paths: seq<string>)
    ensures FilesSorted(SortTree(d, paths), paths)
    decreases d, 1
  {
    SortBySorted(d.files, PathKey(paths));
    SortChildrenSorted(d.children, paths);
  }

  lemma {:induction false} SortChildrenSorted(cs: seq<Child>, paths: seq<string>)
    ensures FilesSortedAll(SortChildren(cs, paths), paths)
    decreases cs, 0
  {
    if |cs| > 0 {
      SortTreeSorted(cs[0].node, paths);
      SortChildrenSorted(cs[1..], paths);
      var r := SortChildren(cs, paths);
      assert r[1..] == SortChildren(cs[1..], paths);
    }
  }

  // ---------------------------------------------------------------------
  // Flattening into rows.

  /** `join_path`. */
  function JoinPath(parent: string, segment: string): (r: string)
    ensures parent == [] ==> r == segment
    ensures parent != [] ==> r == parent + "/" + segment
  {
    if |parent| == 0 then segment else parent + "/" + segment
  }

  /** The names along a chain of directories that hold no files and exactly one sub-directory. */
  function Chain(d: Dir): seq<string>
  {
    if |d.files| == 0 && |d.children| == 1 then [d.children[0].segment] + Chain(d.children[0].node) else []
  }

  /** Where that chain ends. */
  function ChainEnd(d: Dir): (r: Dir)
    ensures Size(r) <= Size(d)
  {
    if |d.files| == 0 && |d.children| == 1 then ChainEnd(d.children[0].node) else d
  }

  /** The chain's end holds every file of the chain. */
  lemma {:induction false} ChainEndFiles(d: Dir)
    ensures !(|ChainEnd(d).files| == 0 && |ChainEnd(d).children| == 1)
    ensures AllFiles(ChainEnd(d)) == AllFiles(d)
  {
    if |d.files| == 0 && |d.children| == 1 {
      ChainEndFiles(d.children[0].node);
      AllFilesInCons(d.children[0], []);
      assert d.children == [d.children[0]] + [];
      assert multiset(d.files) == multiset{};
    }
  }

  /** "/" and the name, for each name. */
  function SlashJoined(names: seq<string>): string
  {
    if |names| == 0 then [] else "/" + names[0] + SlashJoined(names[1..])
  }

  /** Joining with "/" after a first piece is that piece followed by "/" and each further piece. */
  lemma {:induction false} JoinSlashJoined(first: string, names: seq<string>)
    ensures Join([first] + names, "/") == first + SlashJoined(names)
    decreases |names|
  {
    if |names| > 0 {
      JoinSlashJoined(names[0], names[1..]);
      assert ([first] + names)[1..] == [names[0]] + names[1..];
    }
  }

  /** The state `compress_directory` reaches from `(name, key, node)`. */
  function CompressFrom(name: string, key: string, node: Dir): (r: (string, string, Dir))
    ensures Size(r.2) <= Size(node)
    decreases node
  {
    if |node.files| == 0 && |node.children| == 1 then
      var c := node.children[0];
      CompressFrom(name + "/" + c.segment, key + "/" + c.segment, c.node)
    else (name, key, node)
  }

  /** Compressing extends the name and the key by "/" and each name of the chain, and stops at its end. */
  lemma {:induction false} CompressFromChain(name: string, key: string, node: Dir)
    ensures CompressFrom(name, key, node) ==
      (name + SlashJoined(Chain(node)), key + SlashJoined(Chain(node)), ChainEnd(node))
    decreases node
  {
    if |node.files| == 0 && |node.children| == 1 {
      var c := node.children[0];
      CompressFromChain(name + "/" + c.segment, key + "/" + c.segment, c.node);
      assert ([c.segment] + Chain(c.node))[1..] == Chain(c.node);
      var tail := SlashJoined(Chain(c.node));
      assert SlashJoined(Chain(node)) == "/" + c.segment + tail;
      assert name + "/" + c.segment + tail == name + ("/" + c.segment + tail);
      assert key + "/" + c.segment + tail == key + ("/" + c.segment + tail);
    } else {
      assert name + SlashJoined(Chain(node)) == name && key + SlashJoined(Chain(node)) == key;
    }
  }

  /**
   * `compress_directory`: follows the chain of file-less single-child
   * directories below `segment`, extending the name and the key by each
   * name with a "/".
   */
  method CompressDirectory(parentKey: string, segment: string, initial: Dir) returns (name: string, key: string, node: Dir)
    ensures (name, key, node) == CompressFrom(segment, JoinPath(parentKey, segment), initial)
  {
    name := segment;
    key := JoinPath(parentKey, segment);
    node := initial;
    while |node.files| == 0 && |node.children| == 1
      invariant CompressFrom(name, key, node) == CompressFrom(segment, JoinPath(parentKey, segment), initial)
      decreases node
    {
      var next := node.children[0];
      name := name + "/" + next.segment;
      key := key + "/" + next.segment;
      node := next.node;
    }
  }

  /**
   * A compressed row names the whole chain: its name is the first name and
   * the chain's names joined by "/", its key is that name under the
   * parent's key, and the directory it continues with is not itself a
   * file-less single-child directory.
   */
  lemma CompressSpec(parentKey: string, segment: string, initial: Dir)
    ensures var (name, key, node) := CompressFrom(segment, JoinPath(parentKey, segment), initial);
      name == Join([segment] + Chain(initial), "/") &&
      key == JoinPath(parentKey, name) &&
      node == ChainEnd(initial) &&
      !(|node.files| == 0 && |node.children| == 1)
  {
    CompressFromChain(segment, JoinPath(parentKey, segment), initial);
    ChainEndFiles(initial);
    JoinSlashJoined(segment, Chain(initial));
  }

  /** `rsplit('/').next()`: the text after the last "/", or the whole path when it has none. */
  function LastSegment(path: string): string
  {
    if |path| == 0 || path[|path| - 1] == '/' then []
    else LastSegment(path[..|path| - 1]) + [path[|path| - 1]]
  }

  /** The label of a file row is a suffix of its path holding no "/", preceded by a "/" unless it is the whole path. */
  lemma {:induction false} LastSegmentSpec(path: string)
    ensures var r := LastSegment(path);
      '/' !in r && |r| <= |path| && r == path[|path| - |r|..] &&
      (|r| < |path| ==> path[|path| - |r| - 1] == '/')
  {
    if |path| > 0 && path[|path| - 1] != '/' {
      var init := path[..|path| - 1];
      LastSegmentSpec(init);
      var r0, c := LastSegment(init), path[|path| - 1];
      assert path == init + [c];
      assert LastSegment(path) == r0 + [c];
      assert path[|path| - |r0| - 1..] == init[|init| - |r0|..] + [c];
      assert |r0| < |init| ==> path[|path| - |r0| - 2] == init[|init| - |r0| - 1];
    }
  }

  /** Every file index in the tree names a diff file. */
  predicate FilesBelow(d: Dir, n: nat)
  {
    forall i :: i in AllFiles(d) ==> i < n
  }

  /** A sub-directory is smaller than the run it is in, and its files are among the run's. */
  lemma {:induction false} ChildWithin(cs: seq<Child>, i: nat)
    requires i < |cs|
    ensures Size(cs[i].node) < SizeAll(cs)
    ensures AllFiles(cs[i].node) <= AllFilesIn(cs)
  {
    if i > 0 {
      ChildWithin(cs[1..], i - 1);
    }
  }

  lemma FilesBelowParts(d: Dir, n: nat)
    requires FilesBelow(d, n)
    ensures forall f :: f in AllFilesIn(d.children) ==> f < n
    ensures forall k :: 0 <= k < |d.files| ==> d.files[k] < n
  {
    assert forall k :: 0 <= k < |d.files| ==> d.files[k] in AllFiles(d);
    assert forall f :: f in AllFilesIn(d.children) ==> f in AllFiles(d);
  }

  function DirRow(key: string, name: string, depth: nat, collapsed: set<string>): DiffTreeRow
  {
    DiffTreeRow(key, name, depth, true, key in collapsed, None)
  }

  /** The row of diff file `index`: keyed by "file:" and its path, labelled with its last segment. */
  function FileRow(index: nat, depth: nat, paths: seq<string>): DiffTreeRow
  {
    DiffTreeRow(FilePrefix + PathOf(paths, index), LastSegment(PathOf(paths, index)), depth, false, false, Some(index))
  }

  /** The rows `append_diff_tree_rows` adds for directory `d`: its sub-directories in name order, then its files. */
  function Rows(d: Dir, parentKey: string, depth: nat, paths: seq<string>, collapsed: set<string>): seq<DiffTreeRow>
    decreases Size(d), 1
  {
    ChildRows(d.children, parentKey, depth, paths, collapsed) + FileRows(d.files, depth, paths)
  }

  /** The rows of a run of sub-directories. */
  function ChildRows(cs: seq<Child>, parentKey: string, depth: nat, paths: seq<string>, collapsed: set<string>): seq<DiffTreeRow>
    decreases SizeAll(cs), 2
  {
    if |cs| == 0 then []
    else Block(cs[0], parentKey, depth, paths, collapsed) + ChildRows(cs[1..], parentKey, depth, paths, collapsed)
  }

  /** The rows of one sub-directory: its (compressed) row, then, unless it is collapsed, what it holds. */
  function Block(c: Child, parentKey: string, depth: nat, paths: seq<string>, collapsed: set<string>): seq<DiffTreeRow>
    decreases Size(c.node), 3
  {
    var (name, key, node) := CompressFrom(c.segment, JoinPath(parentKey, c.segment), c.node);
    [DirRow(key, name, depth, collapsed)] + (if key in collapsed then [] else Rows(node, key, depth + 1, paths, collapsed))
  }

  function FileRows(files: seq<nat>, depth: nat, paths: seq<string>): seq<DiffTreeRow>
  {
    if |files| == 0 then [] else [FileRow(files[0], depth, paths)] + FileRows(files[1..], depth, paths)
  }

  lemma Assoc(x: seq<DiffTreeRow>, a: seq<DiffTreeRow>, b: seq<DiffTreeRow>, c: seq<DiffTreeRow>)
    ensures x + a + b + c == x + (a + b + c)
  {
  }

  /** One turn of the directory loop: the block of child `i` extends what came before. */
  lemma ChildLoopStep(rows: seq<DiffTreeRow>, goal: seq<DiffTreeRow>, cs: seq<Child>, i: nat, parentKey: string,
                      depth: nat, paths: seq<string>, collapsed: set<string>)
    requires i < |cs|
    requires rows + ChildRows(cs[i..], parentKey, depth, paths, collapsed) == goal
    ensures rows + Block(cs[i], parentKey, depth, paths, collapsed) + ChildRows(cs[i + 1..], parentKey, depth, paths, collapsed) == goal
  {
    assert cs[i..][1..] == cs[i + 1..];
  }

  /** One turn of the file loop. */
  lemma FileLoopStep(rows: seq<DiffTreeRow>, goal: seq<DiffTreeRow>, files: seq<nat>, k: nat, depth: nat, paths: seq<string>)
    requires k < |files|
    requires rows + FileRows(files[k..], depth, paths) == goal
    ensures rows + [FileRow(files[k], depth, paths)] + FileRows(files[k + 1..], depth, paths) == goal
  {
    assert files[k..][1..] == files[k + 1..];
  }

  /**
   * `append_diff_tree_rows`: for each sub-directory in name order, its
   * compressed row and, unless collapsed, its own rows one level deeper;
   * then a row per file. A file index outside the diff makes `append_diff_tree_rows`
   * panic, hence the precondition.
   */
  method AppendDiffTreeRows(node: Dir, parentKey: string, depth: nat, rows0: seq<DiffTreeRow>,
                            paths: seq<string>, collapsed: set<string>) returns (rows: seq<DiffTreeRow>)
    requires FilesBelow(node, |paths|)
    ensures rows == rows0 + Rows(node, parentKey, depth, paths, collapsed)
    decreases Size(node), 1
  {
    FilesBelowParts(node, |paths|);
    var withDirs := AppendDirectoryRows(node.children, parentKey, depth, rows0, paths, collapsed);
    rows := AppendFileRows(node.files, depth, withDirs, paths);
    RowsSplit(rows0, node, parentKey, depth, paths, collapsed);
  }

  /** A directory's rows are its sub-directories' rows followed by its files' rows, after any prefix. */
  lemma RowsSplit(rows0: seq<DiffTreeRow>, node: Dir, parentKey: string, depth: nat, paths: seq<string>,
                  collapsed: set<string>)
    ensures rows0 + ChildRows(node.children, parentKey, depth, paths, collapsed) + FileRows(node.files, depth, paths)
         == rows0 + Rows(node, parentKey, depth, paths, collapsed)
  {
  }

  /** The directory loop of `append_diff_tree_rows`. */
  method AppendDirectoryRows(cs: seq<Child>, parentKey: string, depth: nat, rows0: seq<DiffTreeRow>,
                             paths: seq<string>, collapsed: set<string>) returns (rows: seq<DiffTreeRow>)
    requires forall f :: f in AllFilesIn(cs) ==> f < |paths|
    ensures rows == rows0 + ChildRows(cs, parentKey, depth, paths, collapsed)
    decreases SizeAll(cs), 2
  {
    rows := rows0;
    var i := 0;
    while i < |cs|
      invariant 0 <= i <= |cs|
      invariant rows + ChildRows(cs[i..], parentKey, depth, paths, collapsed) ==
        rows0 + ChildRows(cs, parentKey, depth, paths, collapsed)
    {
      ChildWithin(cs, i);
      ChildLoopStep(rows, rows0 + ChildRows(cs, parentKey, depth, paths, collapsed), cs, i, parentKey, depth, paths, collapsed);
      rows := AppendDirectoryBlock(cs[i], parentKey, depth, rows, paths, collapsed);
      i := i + 1;
    }
  }

  /** One turn of the directory loop: the compressed directory row, then its contents unless it is collapsed. */
  method AppendDirectoryBlock(c: Child, parentKey: string, depth: nat, rows0: seq<DiffTreeRow>,
                              paths: seq<string>, collapsed: set<string>) returns (rows: seq<DiffTreeRow>)
    requires FilesBelow(c.node, |paths|)
    ensures rows == rows0 + Block(c, parentKey, depth, paths, collapsed)
    decreases Size(c.node), 3
  {
    var name, key, compressed := CompressDirectory(parentKey, c.segment, c.node);
    CompressFromChain(c.segment, JoinPath(parentKey, c.segment), c.node);
    ChainEndFiles(c.node);
    var isCollapsed := key in collapsed;
    rows := rows0 + [DiffTreeRow(key, name, depth, true, isCollapsed, None)];
    if !isCollapsed {
      rows := AppendDiffTreeRows(compressed, key, depth + 1, rows, paths, collapsed);
    }
  }

  /** The file loop of `append_diff_tree_rows`. */
  method AppendFileRows(files: seq<nat>, depth: nat, rows0: seq<DiffTreeRow>, paths: seq<string>)
    returns (rows: seq<DiffTreeRow>)
    requires forall k :: 0 <= k < |files| ==> files[k] < |paths|
    ensures rows == rows0 + FileRows(files, depth, paths)
  {
    rows := rows0;
    var k := 0;
    while k < |files|
      invariant 0 <= k <= |files|
      invariant rows + FileRows(files[k..], depth, paths) == rows0 + FileRows(files, depth, paths)
    {
      FileLoopStep(rows, rows0 + FileRows(files, depth, paths), files, k, depth, paths);
      var path := paths[files[k]];
      rows := rows + [DiffTreeRow(FilePrefix + path, LastSegment(path), depth, false, false, Some(files[k]))];
      k := k + 1;
    }
  }

  // ---------------------------------------------------------------------
  // The whole pane.

  /** The file paths of a diff, by index: all the tree needs of it. */
  function Paths(diff: DiffData): (r: seq<string>)
    ensures |r| == |diff.files| && forall i :: 0 <= i < |r| ==> r[i] == diff.files[i].path
  {
    seq(|diff.files|, i requires 0 <= i < |diff.files| => diff.files[i].path)
  }

  /** The rows of the pane for a diff, given the collapsed directory keys. */
  function DiffTreeRows(paths: seq<string>, collapsed: set<string>): seq<DiffTreeRow>
  {
    Rows(SortTree(TreeOf(paths), paths), "", 0, paths, collapsed)
  }

  /** The insertion loop of `build_diff_tree_rows`: every file inserted under its path, in diff order. */
  method BuildDiffTree(paths: seq<string>) returns (root: Dir)
    ensures root == TreeOf(paths)
  {
    root := EmptyDir;
    var i := 0;
    while i < |paths|
      invariant 0 <= i <= |paths| && root == TreeOf(paths[..i])
    {
      assert paths[..i + 1][..i] == paths[..i];
      root := InsertDiffPath(root, paths[i], i);
      i := i + 1;
    }
    assert paths[..i] == paths;
  }

  /** `build_diff_tree_rows`: build the tree, sort each directory's files, flatten from the root at depth 0. */
  method BuildDiffTreeRows(diff: DiffData, collapsed: set<string>) returns (rows: seq<DiffTreeRow>)
    ensures rows == DiffTreeRows(Paths(diff), collapsed)
  {
    var paths := Paths(diff);
    var root := BuildDiffTree(paths);
    TreeOfSpec(paths);
    SortTreeFiles(root, paths);
    root := SortTree(root, paths);
    assert FilesBelow(root, |paths|) by {
      forall f | f in AllFiles(root) ensures f < |paths| {
        var k :| 0 <= k < |paths| && Range(|paths|)[k] == f;
      }
    }
    rows := AppendDiffTreeRows(root, "", 0, [], paths, collapsed);
  }

  // ---------------------------------------------------------------------
  // What the rows look like.

  /** One row may follow another: never more than one level deeper, and one level deeper only below an expanded directory. */
  predicate Follows(prev: DiffTreeRow, next: DiffTreeRow)
  {
    next.depth <= prev.depth || (next.depth == prev.depth + 1 && prev.isDirectory && !prev.isCollapsed)
  }

  /** Rows forming an outline rooted at depth `d`: it starts at `d`, never goes above `d`, and every step follows. */
  ghost predicate Nested(rows: seq<DiffTreeRow>, d: nat)
  {
    (|rows| > 0 ==> rows[0].depth == d) &&
    (forall i :: 0 <= i < |rows| ==> rows[i].depth >= d) &&
    (forall i, j :: 0 <= i < j < |rows| && j == i + 1 ==> Follows(rows[i], rows[j]))
  }

  lemma NestedConcat(a: seq<DiffTreeRow>, b: seq<DiffTreeRow>, d: nat)
    requires Nested(a, d) && Nested(b, d)
    ensures Nested(a + b, d)
  {
    var r := a + b;
    forall i, j | 0 <= i < j < |r| && j == i + 1 ensures Follows(r[i], r[j]) {
      if j < |a| {
        assert Follows(a[i], a[j]);
      } else if i >= |a| {
        assert Follows(b[i - |a|], b[j - |a|]);
      }
    }
  }

  lemma NestedBelow(row: DiffTreeRow, rows: seq<DiffTreeRow>, d: nat)
    requires row.depth == d && row.isDirectory && !row.isCollapsed && Nested(rows, d + 1)
    ensures Nested([row] + rows, d)
  {
    var r := [row] + rows;
    forall i, j | 0 <= i < j < |r| && j == i + 1 ensures Follows(r[i], r[j]) {
      if i > 0 {
        assert Follows(rows[i - 1], rows[j - 1]);
      }
    }
  }

  /** What a row carries: a directory row has no file and is collapsed exactly when its key is; a file row names its file. */
  predicate RowShaped(row: DiffTreeRow, paths: seq<string>, collapsed: set<string>)
  {
    if row.isDirectory then row.fileIndex == None && row.isCollapsed == (row.key in collapsed)
    else
      row.fileIndex.Some? && !row.isCollapsed &&
      row.key == FilePrefix + PathOf(paths, row.fileIndex.value) &&
      row.name == LastSegment(PathOf(paths, row.fileIndex.value))
  }

  predicate AllShaped(rows: seq<DiffTreeRow>, paths: seq<string>, collapsed: set<string>)
  {
    forall i :: 0 <= i < |rows| ==> RowShaped(rows[i], paths, collapsed)
  }

  /** The file index a row shows, if any. */
  function Shown(row: DiffTreeRow): multiset<nat>
  {
    if row.fileIndex.Some? then multiset{row.fileIndex.value} else multiset{}
  }

  /** The file indices the rows show, counted with repetition. */
  function FileIndices(rows: seq<DiffTreeRow>): multiset<nat>
  {
    if |rows| == 0 then multiset{} else Shown(rows[0]) + FileIndices(rows[1..])
  }

  lemma {:induction false} FileIndicesConcat(a: seq<DiffTreeRow>, b: seq<DiffTreeRow>)
    ensures FileIndices(a + b) == FileIndices(a) + FileIndices(b)
  {
    if |a| == 0 {
      assert a + b == b;
    } else {
      var ab := a + b;
      assert ab[1..] == a[1..] + b;
      FileIndicesConcat(a[1..], b);
      MultisetAssoc(Shown(a[0]), FileIndices(a[1..]), FileIndices(b));
    }
  }

  lemma MultisetAssoc(h: multiset<nat>, x: multiset<nat>, y: multiset<nat>)
    ensures h + (x + y) == (h + x) + y
  {
    forall e ensures (h + (x + y))[e] == ((h + x) + y)[e] {
    }
  }

  /** Row `k` of a file run is the row of its `k`-th file. */
  lemma {:induction false} FileRowsAt(files: seq<nat>, d: nat, paths: seq<string>)
    ensures |FileRows(files, d, paths)| == |files|
    ensures forall k :: 0 <= k < |files| ==> FileRows(files, d, paths)[k] == FileRow(files[k], d, paths)
  {
    if |files| > 0 {
      FileRowsAt(files[1..], d, paths);
    }
  }

  lemma {:induction false} FileRowsIndices(files: seq<nat>, d: nat, paths: seq<string>)
    ensures FileIndices(FileRows(files, d, paths)) == multiset(files)
  {
    if |files| > 0 {
      FileRowsIndices(files[1..], d, paths);
      assert FileRows(files, d, paths)[1..] == FileRows(files[1..], d, paths);
      assert files == [files[0]] + files[1..];
    }
  }

  lemma AddWithin(a: multiset<nat>, b: multiset<nat>, c: multiset<nat>, e: multiset<nat>)
    requires a <= b && c <= e
    ensures a + c <= b + e
  {
    forall x ensures (a + c)[x] <= (b + e)[x] {
      assert a[x] <= b[x] && c[x] <= e[x];
    }
  }

  /** A directory's rows form an outline rooted at `depth`. */
  lemma {:induction false} RowsNested(d: Dir, parentKey: string, depth: nat, paths: seq<string>, collapsed: set<string>)
    ensures Nested(Rows(d, parentKey, depth, paths, collapsed), depth)
    decreases Size(d), 1
  {
    ChildRowsNested(d.children, parentKey, depth, paths, collapsed);
    FileRowsAt(d.files, depth, paths);
    NestedConcat(ChildRows(d.children, parentKey, depth, paths, collapsed), FileRows(d.files, depth, paths), depth);
  }

  lemma {:induction false} ChildRowsNested(cs: seq<Child>, parentKey: string, depth: nat, paths: seq<string>, collapsed: set<string>)
    ensures Nested(ChildRows(cs, parentKey, depth, paths, collapsed), depth)
    decreases SizeAll(cs), 2
  {
    if |cs| > 0 {
      BlockNested(cs[0], parentKey, depth, paths, collapsed);
      ChildRowsNested(cs[1..], parentKey, depth, paths, collapsed);
      NestedConcat(Block(cs[0], parentKey, depth, paths, collapsed), ChildRows(cs[1..], parentKey, depth, paths, collapsed), depth);
    }
  }

  lemma {:induction false} BlockNested(c: Child, parentKey: string, depth: nat, paths: seq<string>, collapsed: set<string>)
    ensures Nested(Block(c, parentKey, depth, paths, collapsed), depth)
    decreases Size(c.node), 3
  {
    var (name, key, node) := CompressFrom(c.segment, JoinPath(parentKey, c.segment), c.node);
    if key !in collapsed {
      RowsNested(node, key, depth + 1, paths, collapsed);
      NestedBelow(DirRow(key, name, depth, collapsed), Rows(node, key, depth + 1, paths, collapsed), depth);
    }
  }

  /** Every row of a directory carries what its kind promises. */
  lemma {:induction false} RowsShaped(d: Dir, parentKey: string, depth: nat, paths: seq<string>, collapsed: set<string>)
    ensures AllShaped(Rows(d, parentKey, depth, paths, collapsed), paths, collapsed)
    decreases Size(d), 1
  {
    ChildRowsShaped(d.children, parentKey, depth, paths, collapsed);
    FileRowsAt(d.files, depth, paths);
  }

  lemma {:induction false} ChildRowsShaped(cs: seq<Child>, parentKey: string, depth: nat, paths: seq<string>, collapsed: set<string>)
    ensures AllShaped(ChildRows(cs, parentKey, depth, paths, collapsed), paths, collapsed)
    decreases SizeAll(cs), 2
  {
    if |cs| > 0 {
      BlockShaped(cs[0], parentKey, depth, paths, collapsed);
      ChildRowsShaped(cs[1..], parentKey, depth, paths, collapsed);
    }
  }

  lemma {:induction false} BlockShaped(c: Child, parentKey: string, depth: nat, paths: seq<string>, collapsed: set<string>)
    ensures AllShaped(Block(c, parentKey, depth, paths, collapsed), paths, collapsed)
    decreases Size(c.node), 3
  {
    var (name, key, node) := CompressFrom(c.segment, JoinPath(parentKey, c.segment), c.node);
    if key !in collapsed {
      RowsShaped(node, key, depth + 1, paths, collapsed);
    }
  }

  /** The files a directory's rows show are files of the directory; with nothing collapsed, all of them, once each. */
  lemma {:induction false} RowsFiles(d: Dir, parentKey: string, depth: nat, paths: seq<string>, collapsed: set<string>)
    ensures FileIndices(Rows(d, parentKey, depth, paths, collapsed)) <= AllFiles(d)
    ensures collapsed == {} ==> FileIndices(Rows(d, parentKey, depth, paths, collapsed)) == AllFiles(d)
    decreases Size(d), 1
  {
    var a := ChildRows(d.children, parentKey, depth, paths, collapsed);
    var b := FileRows(d.files, depth, paths);
    ChildRowsFiles(d.children, parentKey, depth, paths, collapsed);
    FileRowsIndices(d.files, depth, paths);
    FileIndicesConcat(a, b);
    AddWithin(FileIndices(a), AllFilesIn(d.children), FileIndices(b), multiset(d.files));
  }

  lemma {:induction false} ChildRowsFiles(cs: seq<Child>, parentKey: string, depth: nat, paths: seq<string>, collapsed: set<string>)
    ensures FileIndices(ChildRows(cs, parentKey, depth, paths, collapsed)) <= AllFilesIn(cs)
    ensures collapsed == {} ==> FileIndices(ChildRows(cs, parentKey, depth, paths, collapsed)) == AllFilesIn(cs)
    decreases SizeAll(cs), 2
  {
    if |cs| > 0 {
      var a := Block(cs[0], parentKey, depth, paths, collapsed);
      var b := ChildRows(cs[1..], parentKey, depth, paths, collapsed);
      BlockFiles(cs[0], parentKey, depth, paths, collapsed);
      ChildRowsFiles(cs[1..], parentKey, depth, paths, collapsed);
      FileIndicesConcat(a, b);
      AddWithin(FileIndices(a), AllFiles(cs[0].node), FileIndices(b), AllFilesIn(cs[1..]));
    }
  }

  lemma {:induction false} BlockFiles(c: Child, parentKey: string, depth: nat, paths: seq<string>, collapsed: set<string>)
    ensures FileIndices(Block(c, parentKey, depth, paths, collapsed)) <= AllFiles(c.node)
    ensures collapsed == {} ==> FileIndices(Block(c, parentKey, depth, paths, collapsed)) == AllFiles(c.node)
    decreases Size(c.node), 3
  {
    var (name, key, node) := CompressFrom(c.segment, JoinPath(parentKey, c.segment), c.node);
    CompressFromChain(c.segment, JoinPath(parentKey, c.segment), c.node);
    ChainEndFiles(c.node);
    BlockIndices(c, parentKey, depth, paths, collapsed);
    if key !in collapsed {
      RowsFiles(node, key, depth + 1, paths, collapsed);
    }
  }

  /** A block shows what the rows under its directory row show, and nothing when that directory is collapsed. */
  lemma BlockIndices(c: Child, parentKey: string, depth: nat, paths: seq<string>, collapsed: set<string>)
    ensures var (name, key, node) := CompressFrom(c.segment, JoinPath(parentKey, c.segment), c.node);
      FileIndices(Block(c, parentKey, depth, paths, collapsed)) ==
        if key in collapsed then multiset{} else FileIndices(Rows(node, key, depth + 1, paths, collapsed))
  {
    var (name, key, node) := CompressFrom(c.segment, JoinPath(parentKey, c.segment), c.node);
    var row := DirRow(key, name, depth, collapsed);
    var rest := if key in collapsed then [] else Rows(node, key, depth + 1, paths, collapsed);
    assert Block(c, parentKey, depth, paths, collapsed) == [row] + rest;
    NoFileFirst(row, rest);
  }

  /** A row showing no file adds nothing to the indices of the rows after it. */
  lemma NoFileFirst(row: DiffTreeRow, rest: seq<DiffTreeRow>)
    requires row.fileIndex.None?
    ensures FileIndices([row] + rest) == FileIndices(rest)
  {
    assert ([row] + rest)[1..] == rest;
  }

  /**
   * The pane's rows form an outline rooted at depth 0 whose rows carry what
   * their kind promises; only files of the diff are shown; and with nothing
   * collapsed every file of the diff is shown exactly once.
   */
  lemma DiffTreeRowsSpec(paths: seq<string>, collapsed: set<string>)
    ensures Nested(DiffTreeRows(paths, collapsed), 0)
    ensures AllShaped(DiffTreeRows(paths, collapsed), paths, collapsed)
    ensures FileIndices(DiffTreeRows(paths, collapsed)) <= multiset(Range(|paths|))
    ensures collapsed == {} ==> FileIndices(DiffTreeRows(paths, collapsed)) == multiset(Range(|paths|))
  {
    TreeOfSpec(paths);
    SortTreeFiles(TreeOf(paths), paths);
    var root := SortTree(TreeOf(paths), paths);
    RowsNested(root, "", 0, paths, collapsed);
    RowsShaped(root, "", 0, paths, collapsed);
    RowsFiles(root, "", 0, paths, collapsed);
  }

  /** A collapsed directory hides what it holds: the row after it is not deeper. */
  lemma CollapsedHidesContents(rows: seq<DiffTreeRow>, d: nat, i: nat)
    requires Nested(rows, d) && i + 1 < |rows| && rows[i].isDirectory && rows[i].isCollapsed
    ensures rows[i + 1].depth <= rows[i].depth
  {
    assert Follows(rows[i], rows[i + 1]);
  }

  // ---------------------------------------------------------------------
  // Filtering the pane.

  function RowKey(row: DiffTreeRow): string
  {
    row.key
  }

  function RowDepth(row: DiffTreeRow): nat
  {
    row.depth
  }

  /** Directory rows go on the parent stack. */
  predicate IsDirRow(row: DiffTreeRow)
  {
    row.isDirectory
  }

  /** A file row matches when its index names a diff file whose path contains the query, ignoring ASCII case. */
  predicate FileMatches(row: DiffTreeRow, paths: seq<string>, q: string)
  {
    !row.isDirectory && row.fileIndex.Some? && row.fileIndex.value < |paths| &&
    ContainsIgnoreCase(paths[row.fileIndex.value], q)
  }

  /** The walk of `filter_diff_tree_rows` with the normalized query `q`: directories are pushed, file rows are tested. */
  function DiffWalk(paths: seq<string>, q: string): Walk<DiffTreeRow>
  {
    Walk(RowKey, RowDepth, IsDirRow, row => FileMatches(row, paths, q))
  }

  function Expanded(row: DiffTreeRow): DiffTreeRow
  {
    row.(isCollapsed := false)
  }

  /** Every row expanded. */
  function ExpandAll(rows: seq<DiffTreeRow>): (r: seq<DiffTreeRow>)
    ensures |r| == |rows| && forall k :: 0 <= k < |rows| ==> r[k] == Expanded(rows[k])
  {
    seq(|rows|, k requires 0 <= k < |rows| => Expanded(rows[k]))
  }

  /** The rows shown for a query: all of them for a blank one, otherwise the selected rows, each expanded. */
  function DiffTreeFilter(rows: seq<DiffTreeRow>, paths: seq<string>, query: string): seq<DiffTreeRow>
  {
    if IsBlank(query) then rows else ExpandAll(Selected(rows, DiffWalk(paths, NormalizeQuery(query))))
  }

  /**
   * `filter_diff_tree_rows`: for a blank query the rows as they are;
   * otherwise the walk marks each matching file row and the directories on
   * the parent stack above it, and the marked rows are kept, expanded.
   */
  method FilterDiffTreeRows(rows: seq<DiffTreeRow>, diff: DiffData, query: string) returns (out: seq<DiffTreeRow>)
    ensures out == DiffTreeFilter(rows, Paths(diff), query)
  {
    var q := NormalizeQuery(query);
    if |q| == 0 {
      return rows;
    }
    var kept := WalkAndKeep(rows, DiffWalk(Paths(diff), q));
    out := ExpandRows(kept);
  }

  /** The final `map` of `filter_diff_tree_rows`: every kept row with its collapsed flag cleared. */
  method ExpandRows(kept: seq<DiffTreeRow>) returns (out: seq<DiffTreeRow>)
    ensures out == ExpandAll(kept)
  {
    out := [];
    var i := 0;
    while i < |kept|
      invariant 0 <= i <= |kept| && |out| == i
      invariant forall k :: 0 <= k < i ==> out[k] == Expanded(kept[k])
    {
      out := out + [kept[i].(isCollapsed := false)];
      i := i + 1;
    }
  }

  /** A blank query shows the rows as they are. */
  lemma BlankFilterKeepsRows(rows: seq<DiffTreeRow>, paths: seq<string>, query: string)
    requires IsBlank(query)
    ensures DiffTreeFilter(rows, paths, query) == rows
  {
  }

  /** For a query that is not blank, every matching file row is shown, with the directories on its parent stack. */
  lemma FilterShowsMatches(rows: seq<DiffTreeRow>, paths: seq<string>, query: string)
    requires !IsBlank(query)
    ensures forall i :: 0 <= i < |rows| && FileMatches(rows[i], paths, NormalizeQuery(query)) ==>
      Expanded(rows[i]) in DiffTreeFilter(rows, paths, query)
    ensures forall i, x ::
      (0 <= i < |rows| && FileMatches(rows[i], paths, NormalizeQuery(query)) && x in rows &&
       x.key in Parents(rows, i, DiffWalk(paths, NormalizeQuery(query)))) ==>
      Expanded(x) in DiffTreeFilter(rows, paths, query)
  {
    var w := DiffWalk(paths, NormalizeQuery(query));
    var kept := Selected(rows, w);
    SelectedSpec(rows, w);
    forall x | x in kept ensures Expanded(x) in ExpandAll(kept) {
      var k :| 0 <= k < |kept| && kept[k] == x;
      assert ExpandAll(kept)[k] == Expanded(x);
    }
  }

  /**
   * For a query that is not blank, nothing shown is collapsed, and every
   * row shown is an input row, expanded, whose key is that of a matching
   * file row or on the parent stack of one.
   */
  lemma FilterShowsOnlyMatchContext(rows: seq<DiffTreeRow>, paths: seq<string>, query: string, y: DiffTreeRow)
    requires !IsBlank(query) && y in DiffTreeFilter(rows, paths, query)
    ensures !y.isCollapsed
    ensures exists x, i ::
      (x in rows && y == Expanded(x) && 0 <= i < |rows| &&
       FileMatches(rows[i], paths, NormalizeQuery(query)) &&
       (x.key == rows[i].key || x.key in Parents(rows, i, DiffWalk(paths, NormalizeQuery(query)))))
  {
    var w := DiffWalk(paths, NormalizeQuery(query));
    var kept := Selected(rows, w);
    var k :| 0 <= k < |kept| && ExpandAll(kept)[k] == y;
    SelectedSpec(rows, w);
    assert kept[k] in kept;
  }

  /** The parent stack of the filter only ever holds directory keys. */
  lemma ParentsAreDirectories(rows: seq<DiffTreeRow>, paths: seq<string>, q: string, i: nat, k: string)
    requires i < |rows| && k in Parents(rows, i, DiffWalk(paths, q))
    ensures exists j :: 0 <= j < i && rows[j].isDirectory && rows[j].key == k
  {
    var w := DiffWalk(paths, q);
    StackHoldsEarlierRows(rows, i, w);
    assert k in StackAfter(rows, i, w);
  }
}
