/**
 * Review-comment threads: the reply trees built from `in_reply_to` links,
 * the resolution state looked up per thread and pushed down its subtree,
 * the review-event check, and the merged, time-ordered comment list.
 */
module Comments {
  import opened Wrappers
  import opened Text
  import opened Seqs
  import opened Domain
  import opened Order

  // ---------------------------------------------------------------------
  // Views of a thread tree
  // ---------------------------------------------------------------------

  /** The nodes of a thread in preorder: the thread itself, then each reply's subtree in order. */
  function Nodes(t: ReviewThread): (r: seq<ReviewThread>)
    ensures |r| > 0 && r[0] == t
    decreases t, 1
  {
    [t] + NodesAll(t.replies)
  }

  /** The nodes of a list of threads, one tree after the other. */
  function NodesAll(ts: seq<ReviewThread>): seq<ReviewThread>
    decreases ts, 0
  {
    if |ts| == 0 then [] else NodesAll(ts[..|ts| - 1]) + Nodes(ts[|ts| - 1])
  }

  /** The comment ids of a list of threads, in order. */
  function ThreadIds(ts: seq<ReviewThread>): (r: seq<nat>)
    ensures |r| == |ts| && forall i :: 0 <= i < |ts| ==> r[i] == ts[i].comment.id
  {
    seq(|ts|, i requires 0 <= i < |ts| => ts[i].comment.id)
  }

  /** The ids of a list of comments, in order. */
  function CommentIds(cs: seq<ReviewComment>): (r: seq<nat>)
    ensures |r| == |cs| && forall i :: 0 <= i < |cs| ==> r[i] == cs[i].id
  {
    seq(|cs|, i requires 0 <= i < |cs| => cs[i].id)
  }

  function IdSet(ns: seq<ReviewThread>): set<nat>
  {
    set n | n in ns :: n.comment.id
  }

  /** No comment id occurs twice among the nodes. */
  predicate DistinctIds(ns: seq<ReviewThread>)
  {
    forall i, j :: 0 <= i < j < |ns| ==> ns[i].comment.id != ns[j].comment.id
  }

  lemma DistinctConcat(a: seq<ReviewThread>, b: seq<ReviewThread>)
    requires DistinctIds(a) && DistinctIds(b) && IdSet(a) !! IdSet(b)
    ensures DistinctIds(a + b) && IdSet(a + b) == IdSet(a) + IdSet(b)
  {
    var ab := a + b;
    forall i, j | 0 <= i < j < |ab| ensures ab[i].comment.id != ab[j].comment.id {
      if i < |a| && j >= |a| {
        assert ab[i] in a && ab[j] == b[j - |a|] && ab[j] in b;
        assert ab[i].comment.id in IdSet(a) && ab[j].comment.id in IdSet(b);
      } else if i >= |a| {
        assert ab[i] == b[i - |a|] && ab[j] == b[j - |a|];
      }
    }
    assert forall n :: n in ab <==> n in a || n in b;
  }

  // ---------------------------------------------------------------------
  // The forest build_review_threads builds, as functions of the input
  // ---------------------------------------------------------------------

  /** No two input comments share an id. */
  predicate UniqueIds(cs: seq<ReviewComment>)
  {
    Distinct(CommentIds(cs))
  }

  /** The comment the id index keeps for `k`: the last one carrying it, since a later insert overwrites. */
  function LastWithId(cs: seq<ReviewComment>, k: nat): (r: Option<ReviewComment>)
    ensures r.Some? ==> r.value.id == k && r.value in cs
  {
    if |cs| == 0 then None
    else if cs[|cs| - 1].id == k then Some(cs[|cs| - 1])
    else LastWithId(cs[..|cs| - 1], k)
  }

  /** `LastWithId` finds nothing exactly when no comment has the id, and otherwise the comment with no later namesake. */
  lemma {:induction false} LastWithIdSpec(cs: seq<ReviewComment>, k: nat)
    ensures LastWithId(cs, k).None? <==> k !in CommentIds(cs)
    ensures forall i :: 0 <= i < |cs| && cs[i].id == k && (forall j :: i < j < |cs| ==> cs[j].id != k) ==>
      LastWithId(cs, k) == Some(cs[i])
  {
    if |cs| > 0 {
      var init := cs[..|cs| - 1];
      LastWithIdSpec(init, k);
      assert CommentIds(cs) == CommentIds(init) + [cs[|cs| - 1].id];
    }
  }

  /** With unique ids, the index keeps every comment under its own id. */
  lemma LastWithIdUnique(cs: seq<ReviewComment>, i: nat)
    requires UniqueIds(cs) && i < |cs|
    ensures LastWithId(cs, cs[i].id) == Some(cs[i])
  {
    LastWithIdSpec(cs, cs[i].id);
    forall j | i < j < |cs| ensures cs[j].id != cs[i].id {
      assert CommentIds(cs)[i] == cs[i].id && CommentIds(cs)[j] == cs[j].id;
    }
  }

  /** A comment `build_review_threads` makes a root: it has no parent, or its parent's id is not among `ids`. */
  predicate IsRoot(c: ReviewComment, ids: seq<nat>)
  {
    c.inReplyTo.None? || c.inReplyTo.value !in ids
  }

  /** The ids of the comments of `cs` that are roots against `ids`, in input order. */
  function RootsAmong(cs: seq<ReviewComment>, ids: seq<nat>): seq<nat>
  {
    if |cs| == 0 then []
    else RootsAmong(cs[..|cs| - 1], ids) + (if IsRoot(cs[|cs| - 1], ids) then [cs[|cs| - 1].id] else [])
  }

  /** The ids the trees of the forest start from: every comment with no parent or an absent one, in input order. */
  function RootIds(cs: seq<ReviewComment>): seq<nat>
  {
    RootsAmong(cs, CommentIds(cs))
  }

  /** The ids of the comments replying to `parent`, in input order. */
  function ChildIds(cs: seq<ReviewComment>, parent: nat): seq<nat>
  {
    if |cs| == 0 then []
    else ChildIds(cs[..|cs| - 1], parent) + (if cs[|cs| - 1].inReplyTo == Some(parent) then [cs[|cs| - 1].id] else [])
  }

  /** The root ids are the ids of the root comments, and nothing else. */
  lemma {:induction false} RootsAmongMembers(cs: seq<ReviewComment>, ids: seq<nat>)
    ensures forall x :: x in RootsAmong(cs, ids) <==> exists i :: 0 <= i < |cs| && cs[i].id == x && IsRoot(cs[i], ids)
  {
    if |cs| > 0 {
      var init, last := cs[..|cs| - 1], cs[|cs| - 1];
      RootsAmongMembers(init, ids);
      forall x | (exists i :: 0 <= i < |cs| && cs[i].id == x && IsRoot(cs[i], ids))
        ensures x in RootsAmong(cs, ids)
      {
        var i :| 0 <= i < |cs| && cs[i].id == x && IsRoot(cs[i], ids);
        if i < |cs| - 1 {
          assert init[i] == cs[i];
        }
      }
    }
  }

  /** The root ids keep input order. */
  lemma {:induction false} RootsAmongOrdered(cs: seq<ReviewComment>, ids: seq<nat>)
    ensures SubseqOf(RootsAmong(cs, ids), CommentIds(cs))
  {
    if |cs| > 0 {
      var init, last := cs[..|cs| - 1], cs[|cs| - 1];
      var r := RootsAmong(init, ids);
      RootsAmongOrdered(init, ids);
      assert CommentIds(cs) == CommentIds(init) + [last.id];
      if IsRoot(last, ids) {
        assert RootsAmong(cs, ids) == r + [last.id];
        SubseqAppendBoth(r, CommentIds(init), last.id);
      } else {
        assert RootsAmong(cs, ids) == r;
        SubseqExtend(r, CommentIds(init), last.id);
      }
    }
  }

  /** The child ids of `parent` are the ids of the comments replying to it, and nothing else. */
  lemma {:induction false} ChildIdsMembers(cs: seq<ReviewComment>, parent: nat)
    ensures forall x :: x in ChildIds(cs, parent) <==> IsReplyLink(cs, x, parent)
  {
    if |cs| > 0 {
      var init, last := cs[..|cs| - 1], cs[|cs| - 1];
      ChildIdsMembers(init, parent);
      forall x | IsReplyLink(cs, x, parent) ensures x in ChildIds(cs, parent) {
        var i :| 0 <= i < |cs| && cs[i].id == x && cs[i].inReplyTo == Some(parent);
        if i < |cs| - 1 {
          assert init[i] == cs[i];
        }
      }
      forall x | x in ChildIds(init, parent) ensures IsReplyLink(cs, x, parent) {
        var i :| 0 <= i < |init| && init[i].id == x && init[i].inReplyTo == Some(parent);
        assert cs[i] == init[i];
      }
    }
  }

  /** The child ids keep input order. */
  lemma {:induction false} ChildIdsOrdered(cs: seq<ReviewComment>, parent: nat)
    ensures SubseqOf(ChildIds(cs, parent), CommentIds(cs))
  {
    if |cs| > 0 {
      var init, last := cs[..|cs| - 1], cs[|cs| - 1];
      var r := ChildIds(init, parent);
      ChildIdsOrdered(init, parent);
      assert CommentIds(cs) == CommentIds(init) + [last.id];
      if last.inReplyTo == Some(parent) {
        assert ChildIds(cs, parent) == r + [last.id];
        SubseqAppendBoth(r, CommentIds(init), last.id);
      } else {
        assert ChildIds(cs, parent) == r;
        SubseqExtend(r, CommentIds(init), last.id);
      }
    }
  }

  /** Every root id names a root comment; with unique ids no root id repeats. */
  lemma RootIdsSpec(cs: seq<ReviewComment>)
    ensures forall x :: x in RootIds(cs) <==> IsRootLink(cs, x)
    ensures SubseqOf(RootIds(cs), CommentIds(cs))
    ensures UniqueIds(cs) ==> Distinct(RootIds(cs))
  {
    RootsAmongMembers(cs, CommentIds(cs));
    RootsAmongOrdered(cs, CommentIds(cs));
    if UniqueIds(cs) {
      SubseqDistinct(RootIds(cs), CommentIds(cs));
    }
  }

  /** With unique ids no child id repeats. */
  lemma ChildIdsDistinct(cs: seq<ReviewComment>, parent: nat)
    requires UniqueIds(cs)
    ensures Distinct(ChildIds(cs, parent))
  {
    ChildIdsOrdered(cs, parent);
    SubseqDistinct(ChildIds(cs, parent), CommentIds(cs));
  }

  // ---------------------------------------------------------------------
  // build_review_threads / materialize_thread
  // ---------------------------------------------------------------------

  /** A comment waiting to be placed, with the ids of its replies in arrival order. */
  datatype BuildNode = BuildNode(comment: ReviewComment, replies: seq<nat>)

  /** Every node is stored under its comment's id. */
  predicate Keyed(nodes: map<nat, BuildNode>)
  {
    forall k :: k in nodes ==> nodes[k].comment.id == k
  }

  /** `small` is `big` with some keys removed and nothing else changed. */
  predicate SubMap(small: map<nat, BuildNode>, big: map<nat, BuildNode>)
  {
    forall k :: k in small ==> k in big && small[k] == big[k]
  }

  /**
   * A node built from `nodes`: fresh resolution state, the stored comment,
   * and replies drawn, in order, from the stored reply ids.
   */
  predicate BuiltNode(n: ReviewThread, nodes: map<nat, BuildNode>)
  {
    n.threadId.None? && !n.isResolved && n.comment.id in nodes &&
    n.comment == nodes[n.comment.id].comment &&
    SubseqOf(ThreadIds(n.replies), nodes[n.comment.id].replies)
  }

  predicate Built(ns: seq<ReviewThread>, nodes: map<nat, BuildNode>)
  {
    forall n :: n in ns ==> BuiltNode(n, nodes)
  }

  /** The nodes placed are exactly the ones removed from `before` to leave `after`, each once. */
  predicate Taken(ns: seq<ReviewThread>, before: map<nat, BuildNode>, after: map<nat, BuildNode>)
  {
    DistinctIds(ns) && IdSet(ns) == before.Keys - after.Keys
  }

  /** Every reply id stored under a placed node is gone from `rest`: each one still present was built. */
  predicate Closed(ns: seq<ReviewThread>, nodes: map<nat, BuildNode>, rest: map<nat, BuildNode>)
  {
    forall n, x :: n in ns && n.comment.id in nodes && x in nodes[n.comment.id].replies ==> x !in rest
  }

  /** Closure holds against a larger map and a smaller rest. */
  lemma ClosedMono(ns: seq<ReviewThread>, small: map<nat, BuildNode>, big: map<nat, BuildNode>,
                   rest: map<nat, BuildNode>, left: map<nat, BuildNode>)
    requires Closed(ns, small, rest) && Built(ns, small) && SubMap(small, big) && SubMap(left, rest)
    ensures Closed(ns, big, left)
  {
  }

  lemma BuiltMono(ns: seq<ReviewThread>, small: map<nat, BuildNode>, big: map<nat, BuildNode>)
    requires Built(ns, small) && SubMap(small, big)
    ensures Built(ns, big)
  {
  }

  /** Placing one more built tree after `children` keeps the loop's facts. */
  lemma PlaceTree(children: seq<ReviewThread>, c: ReviewThread, order: seq<nat>,
                  big: map<nat, BuildNode>, removed: map<nat, BuildNode>,
                  rest: map<nat, BuildNode>, left: map<nat, BuildNode>)
    requires SubMap(rest, removed) && SubMap(removed, big) && SubMap(left, rest)
    requires Taken(NodesAll(children), removed, rest) && Built(NodesAll(children), big)
    requires Taken(Nodes(c), rest, left) && Built(Nodes(c), rest)
    requires SubseqOf(ThreadIds(children), order)
    requires Closed(NodesAll(children), big, rest) && Closed(Nodes(c), rest, left)
    ensures SubMap(left, removed)
    ensures Taken(NodesAll(children + [c]), removed, left) && Built(NodesAll(children + [c]), big)
    ensures SubseqOf(ThreadIds(children + [c]), order + [c.comment.id])
    ensures Closed(NodesAll(children + [c]), big, left)
  {
    BuiltMono(Nodes(c), rest, big);
    ClosedMono(Nodes(c), rest, big, left, left);
    ClosedMono(NodesAll(children), big, big, rest, left);
    assert NodesAll(children + [c]) == NodesAll(children) + Nodes(c) by {
      assert (children + [c])[..|children|] == children;
    }
    TakenConcat(NodesAll(children), Nodes(c), removed, rest, left);
    BuiltConcat(NodesAll(children), Nodes(c), big);
    assert ThreadIds(children + [c]) == ThreadIds(children) + [c.comment.id];
    SubseqAppendBoth(ThreadIds(children), order, c.comment.id);
  }

  /** Nodes taken from `m1` down to `m2`, then from `m2` down to `m3`, were taken from `m1` down to `m3`. */
  lemma TakenConcat(a: seq<ReviewThread>, b: seq<ReviewThread>,
                    m1: map<nat, BuildNode>, m2: map<nat, BuildNode>, m3: map<nat, BuildNode>)
    requires SubMap(m2, m1) && SubMap(m3, m2)
    requires Taken(a, m1, m2) && Taken(b, m2, m3)
    ensures SubMap(m3, m1) && Taken(a + b, m1, m3)
  {
    DistinctConcat(a, b);
  }

  lemma BuiltConcat(a: seq<ReviewThread>, b: seq<ReviewThread>, nodes: map<nat, BuildNode>)
    requires Built(a, nodes) && Built(b, nodes)
    ensures Built(a + b, nodes)
  {
    forall n | n in a + b ensures BuiltNode(n, nodes) {
      assert n in a || n in b;
    }
  }

  /** The tree `materialize_thread` returns once all replies are placed. */
  lemma FinishTree(id: nat, nodes: map<nat, BuildNode>, children: seq<ReviewThread>, rest: map<nat, BuildNode>)
    requires Keyed(nodes) && id in nodes
    requires SubMap(rest, nodes - {id})
    requires Taken(NodesAll(children), nodes - {id}, rest) && Built(NodesAll(children), nodes)
    requires SubseqOf(ThreadIds(children), nodes[id].replies)
    requires Closed(NodesAll(children), nodes, rest) && forall x :: x in nodes[id].replies ==> x !in rest
    ensures var t := ReviewThread(None, false, nodes[id].comment, children);
      Built(Nodes(t), nodes) && Taken(Nodes(t), nodes, rest) && SubMap(rest, nodes) && Closed(Nodes(t), nodes, rest)
  {
    var t := ReviewThread(None, false, nodes[id].comment, children);
    assert Nodes(t) == [t] + NodesAll(children);
    assert IdSet([t]) == {id} by {
      assert forall n :: n in [t] <==> n == t;
    }
    DistinctConcat([t], NodesAll(children));
  }

  /**
   * `materialize_thread`: takes the node out of the map, then builds its
   * replies from what is left.
   */
  method Materialize(id: nat, nodes: map<nat, BuildNode>) returns (r: Option<ReviewThread>, rest: map<nat, BuildNode>)
    requires Keyed(nodes)
    ensures SubMap(rest, nodes)
    ensures r.None? <==> id !in nodes
    ensures r.None? ==> rest == nodes
    ensures r.Some? ==> r.value.comment == nodes[id].comment
    ensures r.Some? ==> Built(Nodes(r.value), nodes) && Taken(Nodes(r.value), nodes, rest)
    ensures r.Some? ==> Closed(Nodes(r.value), nodes, rest)
    ensures r.Some? ==> forall x :: x in nodes[id].replies && x in nodes ==> x in IdSet(Nodes(r.value))
    decreases nodes.Keys, 1
  {
    if id !in nodes {
      return None, nodes;
    }
    var node := nodes[id];
    assert (nodes - {id}).Keys < nodes.Keys by {
      assert id in nodes.Keys && id !in (nodes - {id}).Keys;
    }
    var children;
    children, rest := MaterializeReplies(node.replies, nodes - {id}, nodes);
    FinishTree(id, nodes, children, rest);
    r := Some(ReviewThread(None, false, node.comment, children));
  }

  /**
   * The loop of `materialize_thread` over a node's reply ids: each reply is
   * built in order from what is left of the map; one already taken is skipped.
   */
  method MaterializeReplies(replies: seq<nat>, removed: map<nat, BuildNode>, nodes: map<nat, BuildNode>)
    returns (children: seq<ReviewThread>, rest: map<nat, BuildNode>)
    requires Keyed(nodes) && SubMap(removed, nodes)
    ensures SubMap(rest, removed)
    ensures Taken(NodesAll(children), removed, rest) && Built(NodesAll(children), nodes)
    ensures SubseqOf(ThreadIds(children), replies)
    ensures forall x :: x in replies ==> x !in rest
    ensures Closed(NodesAll(children), nodes, rest)
    ensures forall x :: x in replies && x in removed ==> x in IdSet(NodesAll(children))
    decreases removed.Keys, 2
  {
    rest := removed;
    children := [];
    var i := 0;
    assert replies[..0] == [];
    while i < |replies|
      invariant Placing(replies, i, removed, nodes, rest, children)
    {
      assert rest.Keys <= removed.Keys;
      var child, left := Materialize(replies[i], rest);
      PlaceStep(replies, i, removed, nodes, rest, children, child, left);
      if child.Some? {
        children := children + [child.value];
      }
      rest := left;
      i := i + 1;
    }
    assert replies[..i] == replies;
  }

  /** The loop state of `MaterializeReplies` after the first `i` reply ids. */
  ghost predicate Placing(replies: seq<nat>, i: nat, removed: map<nat, BuildNode>, nodes: map<nat, BuildNode>,
                          rest: map<nat, BuildNode>, children: seq<ReviewThread>)
  {
    i <= |replies| && SubMap(rest, removed) &&
    Taken(NodesAll(children), removed, rest) && Built(NodesAll(children), nodes) &&
    SubseqOf(ThreadIds(children), replies[..i]) &&
    (forall x :: x in replies[..i] ==> x !in rest) && Closed(NodesAll(children), nodes, rest)
  }

  /** One reply id handled: its tree (when it was still there) is placed after the others. */
  lemma PlaceStep(replies: seq<nat>, i: nat, removed: map<nat, BuildNode>, nodes: map<nat, BuildNode>,
                  rest: map<nat, BuildNode>, children: seq<ReviewThread>, child: Option<ReviewThread>,
                  left: map<nat, BuildNode>)
    requires Placing(replies, i, removed, nodes, rest, children) && i < |replies| && SubMap(removed, nodes)
    requires SubMap(left, rest)
    requires child.None? ==> left == rest
    requires child.Some? ==> Built(Nodes(child.value), rest) && Taken(Nodes(child.value), rest, left)
    requires child.Some? ==> child.value.comment.id == replies[i] && Closed(Nodes(child.value), rest, left)
    requires child.None? ==> replies[i] !in rest
    ensures Placing(replies, i + 1, removed, nodes, left, if child.Some? then children + [child.value] else children)
  {
    assert replies[..i + 1] == replies[..i] + [replies[i]];
    if child.Some? {
      PlaceTree(children, child.value, replies[..i], nodes, removed, rest, left);
      assert child.value in Nodes(child.value);
    } else {
      SubseqExtend(ThreadIds(children), replies[..i], replies[i]);
    }
  }

  /** A link of the input: some comment with this id replies to `parent`. */
  predicate IsReplyLink(comments: seq<ReviewComment>, child: nat, parent: nat)
  {
    exists i :: 0 <= i < |comments| && comments[i].id == child && comments[i].inReplyTo == Some(parent)
  }

  /** Some comment with this id has no parent, or names a parent absent from the input. */
  predicate IsRootLink(comments: seq<ReviewComment>, id: nat)
  {
    exists i :: 0 <= i < |comments| && comments[i].id == id &&
      (comments[i].inReplyTo.None? || comments[i].inReplyTo.value !in CommentIds(comments))
  }

  /** Every stored node holds an input comment, and every reply id stored under a node names it as parent. */
  predicate Linked(comments: seq<ReviewComment>, nodes: map<nat, BuildNode>)
  {
    (forall k :: k in nodes ==> nodes[k].comment in comments) &&
    (forall k, r :: k in nodes && r in nodes[k].replies ==> IsReplyLink(comments, r, k))
  }

  /** The first loop of `build_review_threads`: one node per comment id, the last comment with an id winning. */
  method IndexNodes(comments: seq<ReviewComment>) returns (nodes: map<nat, BuildNode>)
    ensures Keyed(nodes) && Linked(comments, nodes)
    ensures forall k :: k in nodes <==> k in CommentIds(comments)
    ensures forall k :: k in nodes ==> Some(nodes[k].comment) == LastWithId(comments, k)
    ensures forall k :: k in nodes ==> nodes[k].replies == []
  {
    var ids := CommentIds(comments);
    nodes := map[];
    var i := 0;
    while i < |comments|
      invariant 0 <= i <= |comments|
      invariant Keyed(nodes)
      invariant forall k :: k in nodes ==> nodes[k].replies == [] && nodes[k].comment in comments
      invariant forall k :: k in nodes ==> Some(nodes[k].comment) == LastWithId(comments[..i], k)
      invariant nodes.Keys == set j | 0 <= j < i :: ids[j]
    {
      var comment := comments[i];
      assert comments[..i + 1][..i] == comments[..i];
      nodes := nodes[comment.id := BuildNode(comment, [])];
      i := i + 1;
    }
    assert comments[..i] == comments;
    assert nodes.Keys == set x | x in ids by {
      forall x | x in ids ensures x in nodes.Keys {
        var j :| 0 <= j < |ids| && ids[j] == x;
      }
    }
  }

  /** Every node's reply ids drawn, in order, from `order`. */
  predicate RepliesFrom(nodes: map<nat, BuildNode>, order: seq<nat>)
  {
    forall k :: k in nodes ==> SubseqOf(nodes[k].replies, order)
  }

  /**
   * The state of the linking loop after the first `i` comments: each node
   * keeps its comment and holds, in input order, the ids of the comments so
   * far that reply to it; the roots so far are those comments' root ids.
   */
  ghost predicate LinkState(comments: seq<ReviewComment>, i: nat, start: map<nat, BuildNode>,
                            nodes: map<nat, BuildNode>, roots: seq<nat>)
  {
    i <= |comments| && nodes.Keys == start.Keys &&
    (forall k :: k in nodes ==> nodes[k] == BuildNode(start[k].comment, ChildIds(comments[..i], k))) &&
    roots == RootsAmong(comments[..i], CommentIds(comments))
  }

  /**
   * The second loop of `build_review_threads`: in input order, a comment whose
   * parent is present is appended to the parent's replies, any other becomes a root.
   */
  method LinkReplies(comments: seq<ReviewComment>, start: map<nat, BuildNode>)
    returns (nodes: map<nat, BuildNode>, roots: seq<nat>)
    requires Keyed(start) && Linked(comments, start)
    requires forall k :: k in start <==> k in CommentIds(comments)
    requires forall k :: k in start ==> start[k].replies == []
    ensures nodes.Keys == start.Keys
    ensures forall k :: k in nodes ==> nodes[k].comment == start[k].comment && nodes[k].replies == ChildIds(comments, k)
    ensures roots == RootIds(comments)
    ensures Keyed(nodes) && Linked(comments, nodes)
    ensures forall k :: k in nodes <==> k in CommentIds(comments)
    ensures RepliesFrom(nodes, CommentIds(comments))
    ensures forall r :: r in roots ==> IsRootLink(comments, r)
    ensures SubseqOf(roots, CommentIds(comments))
  {
    nodes := start;
    roots := [];
    assert comments[..0] == [];
    for i := 0 to |comments|
      invariant LinkState(comments, i, start, nodes, roots)
    {
      nodes, roots := LinkComment(comments, i, start, nodes, roots);
    }
    assert comments[..|comments|] == comments;
    ChildLinks(comments, start, nodes);
    RootIdsSpec(comments);
  }

  /** One pass of the linking loop: comment `i` goes under its present parent, or becomes a root. */
  method LinkComment(comments: seq<ReviewComment>, i: nat, ghost start: map<nat, BuildNode>,
                     nodes: map<nat, BuildNode>, roots: seq<nat>)
    returns (nodes': map<nat, BuildNode>, roots': seq<nat>)
    requires i < |comments| && LinkState(comments, i, start, nodes, roots)
    requires forall k :: k in start <==> k in CommentIds(comments)
    ensures LinkState(comments, i + 1, start, nodes', roots')
  {
    var id, parent := comments[i].id, comments[i].inReplyTo;
    assert comments[..i + 1][..i] == comments[..i];
    if parent.Some? && parent.value in nodes {
      var p := parent.value;
      nodes' := nodes[p := nodes[p].(replies := nodes[p].replies + [id])];
      roots' := roots;
    } else {
      nodes' := nodes;
      roots' := roots + [id];
    }
  }

  /** Reply lists that are the child ids are real links, in input order. */
  lemma ChildLinks(comments: seq<ReviewComment>, start: map<nat, BuildNode>, nodes: map<nat, BuildNode>)
    requires Keyed(start) && Linked(comments, start) && nodes.Keys == start.Keys
    requires forall k :: k in nodes ==> nodes[k].comment == start[k].comment && nodes[k].replies == ChildIds(comments, k)
    ensures Keyed(nodes) && Linked(comments, nodes) && RepliesFrom(nodes, CommentIds(comments))
  {
    forall k | k in nodes
      ensures SubseqOf(nodes[k].replies, CommentIds(comments))
      ensures forall r :: r in nodes[k].replies ==> IsReplyLink(comments, r, k)
    {
      ChildIdsMembers(comments, k);
      ChildIdsOrdered(comments, k);
    }
  }

  /**
   * `build_review_threads`: every node is fresh (no thread id, unresolved) and
   * holds the last input comment with its id; no comment is placed twice.
   * The trees are drawn, in input order, from the root comments (no parent,
   * or an absent one) and each node's replies from the comments replying to
   * it; every root comment and every reply to a placed node is placed. With
   * unique ids the trees are exactly the root comments and each node's
   * replies exactly the comments replying to it; when no chain of parents
   * loops, every input comment is placed.
   */
  method BuildReviewThreads(comments: seq<ReviewComment>) returns (threads: seq<ReviewThread>)
    ensures DistinctIds(NodesAll(threads))
    ensures forall n :: n in NodesAll(threads) ==> n.threadId.None? && !n.isResolved && n.comment in comments
    ensures forall n :: n in NodesAll(threads) ==> Some(n.comment) == LastWithId(comments, n.comment.id)
    ensures forall n, ch :: n in NodesAll(threads) && ch in n.replies ==>
      IsReplyLink(comments, ch.comment.id, n.comment.id)
    ensures forall n :: n in NodesAll(threads) ==> SubseqOf(ThreadIds(n.replies), CommentIds(comments))
    ensures forall t :: t in threads ==> IsRootLink(comments, t.comment.id)
    ensures SubseqOf(ThreadIds(threads), CommentIds(comments))
    ensures Forest(comments, threads)
    ensures UniqueIds(comments) ==> ThreadIds(threads) == RootIds(comments)
    ensures UniqueIds(comments) ==> forall n :: n in NodesAll(threads) ==> ThreadIds(n.replies) == ChildIds(comments, n.comment.id)
    ensures Acyclic(comments) ==> forall c :: c in comments ==> c.id in IdSet(NodesAll(threads))
    ensures UniqueIds(comments) && Acyclic(comments) ==> forall c :: c in comments ==> exists n :: n in NodesAll(threads) && n.comment == c
  {
    var start := IndexNodes(comments);
    var built, roots := LinkReplies(comments, start);
    var rest;
    threads, rest := MaterializeReplies(roots, built, built);
    ThreadLinks(comments, built, roots, threads);
    ForestBuilt(comments, start, built, rest, threads);
    ForestExact(comments, threads);
  }

  /**
   * What holds of the built forest for any input: roots and each node's
   * replies are drawn in input order from the root ids and the child ids,
   * each node holds the comment the index keeps for its id, and every root
   * id and every child id of a placed node is placed.
   */
  ghost predicate Forest(comments: seq<ReviewComment>, threads: seq<ReviewThread>)
  {
    DistinctIds(NodesAll(threads)) && DrawnFrom(comments, NodesAll(threads)) &&
    SubseqOf(ThreadIds(threads), RootIds(comments)) && Covers(comments, NodesAll(threads))
  }

  /** Each node holds the comment the index keeps for its id, and its replies are drawn in order from its child ids. */
  predicate DrawnFrom(comments: seq<ReviewComment>, ns: seq<ReviewThread>)
  {
    forall n :: n in ns ==>
      n.comment in comments && Some(n.comment) == LastWithId(comments, n.comment.id) &&
      SubseqOf(ThreadIds(n.replies), ChildIds(comments, n.comment.id))
  }

  /** Every root id, and every child id of a node, is placed. */
  predicate Covers(comments: seq<ReviewComment>, ns: seq<ReviewThread>)
  {
    (forall x :: x in RootIds(comments) ==> x in IdSet(ns)) &&
    (forall n, x :: n in ns && x in ChildIds(comments, n.comment.id) ==> x in IdSet(ns))
  }

  /** The facts the index, the linking loop and the materialization leave about the forest. */
  lemma ForestBuilt(comments: seq<ReviewComment>, start: map<nat, BuildNode>, built: map<nat, BuildNode>,
                    rest: map<nat, BuildNode>, threads: seq<ReviewThread>)
    requires forall k :: k in start <==> k in CommentIds(comments)
    requires forall k :: k in start ==> Some(start[k].comment) == LastWithId(comments, k)
    requires built.Keys == start.Keys
    requires forall k :: k in built ==> built[k].comment == start[k].comment && built[k].replies == ChildIds(comments, k)
    requires SubMap(rest, built) && Taken(NodesAll(threads), built, rest) && Built(NodesAll(threads), built)
    requires SubseqOf(ThreadIds(threads), RootIds(comments))
    requires forall x :: x in RootIds(comments) ==> x !in rest
    requires Closed(NodesAll(threads), built, rest)
    ensures Forest(comments, threads)
  {
    var ns := NodesAll(threads);
    RootsPlaced(comments, built, rest, ns);
    ChildrenPlaced(comments, built, rest, ns);
    assert DrawnFrom(comments, ns);
  }

  lemma RootsPlaced(comments: seq<ReviewComment>, built: map<nat, BuildNode>, rest: map<nat, BuildNode>, ns: seq<ReviewThread>)
    requires forall k :: k in built <==> k in CommentIds(comments)
    requires Taken(ns, built, rest)
    requires forall x :: x in RootIds(comments) ==> x !in rest
    ensures forall x :: x in RootIds(comments) ==> x in IdSet(ns)
  {
    RootIdsSpec(comments);
    SubseqMembers(RootIds(comments), CommentIds(comments));
  }

  lemma ChildrenPlaced(comments: seq<ReviewComment>, built: map<nat, BuildNode>, rest: map<nat, BuildNode>, ns: seq<ReviewThread>)
    requires forall k :: k in built <==> k in CommentIds(comments)
    requires forall k :: k in built ==> built[k].replies == ChildIds(comments, k)
    requires Taken(ns, built, rest) && Built(ns, built) && Closed(ns, built, rest)
    ensures forall n, x :: n in ns && x in ChildIds(comments, n.comment.id) ==> x in IdSet(ns)
  {
    forall n, x | n in ns && x in ChildIds(comments, n.comment.id) ensures x in IdSet(ns) {
      ChildIdsOrdered(comments, n.comment.id);
      SubseqMembers(ChildIds(comments, n.comment.id), CommentIds(comments));
    }
  }

  /** The exact forest: with unique ids, roots and replies are all of the root ids and child ids; without loops, every comment is placed. */
  lemma ForestExact(comments: seq<ReviewComment>, threads: seq<ReviewThread>)
    requires Forest(comments, threads)
    ensures UniqueIds(comments) ==> ThreadIds(threads) == RootIds(comments)
    ensures UniqueIds(comments) ==> forall n :: n in NodesAll(threads) ==> ThreadIds(n.replies) == ChildIds(comments, n.comment.id)
    ensures Acyclic(comments) ==> forall c :: c in comments ==> c.id in IdSet(NodesAll(threads))
    ensures UniqueIds(comments) && Acyclic(comments) ==> forall c :: c in comments ==> exists n :: n in NodesAll(threads) && n.comment == c
  {
    var ns := NodesAll(threads);
    if UniqueIds(comments) {
      RootsOnTop(comments, threads);
      forall n | n in ns ensures ThreadIds(n.replies) == ChildIds(comments, n.comment.id) {
        RepliesExact(comments, threads, n);
      }
    }
    if Acyclic(comments) {
      forall c | c in comments ensures c.id in IdSet(ns) {
        var i :| 0 <= i < |comments| && comments[i] == c;
        AllPlaced(comments, c, |comments|, ns);
      }
      if UniqueIds(comments) {
        forall c | c in comments ensures exists n :: n in ns && n.comment == c {
          var i :| 0 <= i < |comments| && comments[i] == c;
          var d :| d in ns && d.comment.id == c.id;
          LastWithIdUnique(comments, i);
        }
      }
    }
  }

  /** Each node of a tree is the tree itself or a reply of one of its nodes. */
  lemma {:induction false} NodeParent(t: ReviewThread, n: ReviewThread)
    requires n in Nodes(t)
    ensures n == t || exists m :: m in Nodes(t) && n in m.replies
    decreases t, 1
  {
    if n != t {
      assert Nodes(t) == [t] + NodesAll(t.replies);
      NodeParentAll(t.replies, n);
    }
  }

  /** Each node of a forest is one of its trees or a reply of one of its nodes. */
  lemma {:induction false} NodeParentAll(ts: seq<ReviewThread>, n: ReviewThread)
    requires n in NodesAll(ts)
    ensures n in ts || exists m :: m in NodesAll(ts) && n in m.replies
    decreases ts, 0
  {
    var init, last := ts[..|ts| - 1], ts[|ts| - 1];
    assert NodesAll(ts) == NodesAll(init) + Nodes(last);
    if n in NodesAll(init) {
      NodeParentAll(init, n);
      if n in init {
        assert n in ts;
      }
    } else {
      NodeParent(last, n);
    }
  }

  /** The id of a reply is among the ids the node's replies are drawn from. */
  lemma ReplyIdIn(m: ReviewThread, d: ReviewThread, ids: seq<nat>)
    requires d in m.replies && SubseqOf(ThreadIds(m.replies), ids)
    ensures d.comment.id in ids
  {
    var k :| 0 <= k < |m.replies| && m.replies[k] == d;
    assert ThreadIds(m.replies)[k] == d.comment.id;
    SubseqMembers(ThreadIds(m.replies), ids);
  }

  /** With unique ids, a comment replying to a present parent is not a root. */
  lemma ReplyNotRoot(comments: seq<ReviewComment>, x: nat, p: nat)
    requires UniqueIds(comments) && x in ChildIds(comments, p) && p in CommentIds(comments)
    ensures x !in RootIds(comments)
  {
    ChildIdsMembers(comments, p);
    RootIdsSpec(comments);
    var i :| 0 <= i < |comments| && comments[i].id == x && comments[i].inReplyTo == Some(p);
    forall j | 0 <= j < |comments| && comments[j].id == x ensures !IsRoot(comments[j], CommentIds(comments)) {
      assert CommentIds(comments)[i] == CommentIds(comments)[j];
    }
  }

  /** With unique ids, a comment replies to one parent only. */
  lemma OneParent(comments: seq<ReviewComment>, x: nat, p: nat, q: nat)
    requires UniqueIds(comments) && x in ChildIds(comments, p) && x in ChildIds(comments, q)
    ensures p == q
  {
    ChildIdsMembers(comments, p);
    ChildIdsMembers(comments, q);
    var i :| 0 <= i < |comments| && comments[i].id == x && comments[i].inReplyTo == Some(p);
    var j :| 0 <= j < |comments| && comments[j].id == x && comments[j].inReplyTo == Some(q);
    assert CommentIds(comments)[i] == CommentIds(comments)[j];
  }

  /** Among nodes with distinct ids, one id names one node. */
  lemma SameIdSameNode(ns: seq<ReviewThread>, m: ReviewThread, n: ReviewThread)
    requires DistinctIds(ns) && m in ns && n in ns && m.comment.id == n.comment.id
    ensures m == n
  {
    var a :| 0 <= a < |ns| && ns[a] == m;
    var b :| 0 <= b < |ns| && ns[b] == n;
    assert !(a < b) && !(b < a);
  }

  /** A placed comment's id is one of the input's ids. */
  lemma PlacedIdIn(comments: seq<ReviewComment>, n: ReviewThread)
    requires n.comment in comments
    ensures n.comment.id in CommentIds(comments)
  {
    var i :| 0 <= i < |comments| && comments[i] == n.comment;
    assert CommentIds(comments)[i] == n.comment.id;
  }

  /** With unique ids, every root id is placed as a tree of its own, so the trees are exactly the roots. */
  lemma RootsOnTop(comments: seq<ReviewComment>, threads: seq<ReviewThread>)
    requires Forest(comments, threads) && UniqueIds(comments)
    ensures ThreadIds(threads) == RootIds(comments)
  {
    var ns := NodesAll(threads);
    RootIdsSpec(comments);
    forall x | x in RootIds(comments) ensures x in ThreadIds(threads) {
      var d :| d in ns && d.comment.id == x;
      NodeParentAll(threads, d);
      if d in threads {
        var k :| 0 <= k < |threads| && threads[k] == d;
        assert ThreadIds(threads)[k] == x;
      } else {
        var m :| m in ns && d in m.replies;
        ReplyIdIn(m, d, ChildIds(comments, m.comment.id));
        PlacedIdIn(comments, m);
        ReplyNotRoot(comments, x, m.comment.id);
      }
    }
    SubseqCovering(ThreadIds(threads), RootIds(comments));
  }

  /** With unique ids, every child id of a placed node is placed among its replies, so they are exactly the child ids. */
  lemma RepliesExact(comments: seq<ReviewComment>, threads: seq<ReviewThread>, n: ReviewThread)
    requires Forest(comments, threads) && UniqueIds(comments) && n in NodesAll(threads)
    ensures ThreadIds(n.replies) == ChildIds(comments, n.comment.id)
  {
    var p := n.comment.id;
    forall x | x in ChildIds(comments, p) ensures x in ThreadIds(n.replies) {
      ChildUnder(comments, threads, n, x);
    }
    ChildIdsDistinct(comments, p);
    SubseqCovering(ThreadIds(n.replies), ChildIds(comments, p));
  }

  /** With unique ids, a child id of a placed node is placed as one of that node's replies. */
  lemma ChildUnder(comments: seq<ReviewComment>, threads: seq<ReviewThread>, n: ReviewThread, x: nat)
    requires Forest(comments, threads) && UniqueIds(comments) && n in NodesAll(threads)
    requires x in ChildIds(comments, n.comment.id)
    ensures x in ThreadIds(n.replies)
  {
    var ns := NodesAll(threads);
    assert x in IdSet(ns);
    var d :| d in ns && d.comment.id == x;
    NodeParentAll(threads, d);
    ChildNotTop(comments, threads, n, d);
    var m :| m in ns && d in m.replies;
    ChildOfItsParent(comments, ns, n, m, d);
  }

  /** With unique ids, a comment replying to a placed node is not one of the trees. */
  lemma ChildNotTop(comments: seq<ReviewComment>, threads: seq<ReviewThread>, n: ReviewThread, d: ReviewThread)
    requires UniqueIds(comments) && n.comment in comments && d.comment.id in ChildIds(comments, n.comment.id)
    requires SubseqOf(ThreadIds(threads), RootIds(comments))
    ensures d !in threads
  {
    PlacedIdIn(comments, n);
    ReplyNotRoot(comments, d.comment.id, n.comment.id);
    SubseqMembers(ThreadIds(threads), RootIds(comments));
    forall k | 0 <= k < |threads| ensures threads[k] != d {
      assert ThreadIds(threads)[k] == threads[k].comment.id;
    }
  }

  /** With unique ids, a reply placed under `m` whose comment replies to `n` is placed under `n` itself. */
  lemma ChildOfItsParent(comments: seq<ReviewComment>, ns: seq<ReviewThread>, n: ReviewThread, m: ReviewThread, d: ReviewThread)
    requires UniqueIds(comments) && DistinctIds(ns) && n in ns && m in ns && d in m.replies
    requires d.comment.id in ChildIds(comments, n.comment.id)
    requires SubseqOf(ThreadIds(m.replies), ChildIds(comments, m.comment.id))
    ensures d.comment.id in ThreadIds(n.replies)
  {
    ReplyIdIn(m, d, ChildIds(comments, m.comment.id));
    OneParent(comments, d.comment.id, n.comment.id, m.comment.id);
    SameIdSameNode(ns, m, n);
    var k :| 0 <= k < |n.replies| && n.replies[k] == d;
    assert ThreadIds(n.replies)[k] == d.comment.id;
  }

  /**
   * The chain of parents from `c` ends within `fuel` steps: at a comment with
   * no parent, or with a parent no comment carries.
   */
  predicate ReachesRoot(cs: seq<ReviewComment>, c: ReviewComment, fuel: nat)
    decreases fuel
  {
    match c.inReplyTo
    case None => true
    case Some(p) =>
      match LastWithId(cs, p)
      case None => true
      case Some(q) => fuel > 0 && ReachesRoot(cs, q, fuel - 1)
  }

  /** No chain of parents loops: from every comment it ends within as many steps as there are comments. */
  predicate Acyclic(cs: seq<ReviewComment>)
  {
    forall i :: 0 <= i < |cs| ==> ReachesRoot(cs, cs[i], |cs|)
  }

  /** A comment whose chain of parents ends is placed: its root is, and each reply to a placed node is. */
  lemma {:induction false} AllPlaced(comments: seq<ReviewComment>, c: ReviewComment, fuel: nat, ns: seq<ReviewThread>)
    requires c in comments && ReachesRoot(comments, c, fuel)
    requires forall x :: x in RootIds(comments) ==> x in IdSet(ns)
    requires forall n, x :: n in ns && x in ChildIds(comments, n.comment.id) ==> x in IdSet(ns)
    ensures c.id in IdSet(ns)
    decreases fuel
  {
    var i :| 0 <= i < |comments| && comments[i] == c;
    RootIdsSpec(comments);
    if c.inReplyTo.Some? {
      var p := c.inReplyTo.value;
      LastWithIdSpec(comments, p);
      if LastWithId(comments, p).Some? {
        var q := LastWithId(comments, p).value;
        AllPlaced(comments, q, fuel - 1, ns);
        var n :| n in ns && n.comment.id == p;
        ChildIdsMembers(comments, p);
        assert IsReplyLink(comments, c.id, p);
      } else {
        assert IsRootLink(comments, c.id);
      }
    } else {
      assert IsRootLink(comments, c.id);
    }
  }

  /** A review comment as the thread-builder tests make it: only the id and the reply target vary. */
  function Fixture(id: nat, inReplyTo: Option<nat>): ReviewComment
  {
    ReviewComment(id, inReplyTo, None, "comment", "src/lib.rs", Some(1), None, "@@ -1,1 +1,1 @@", 0)
  }

  /** One more comment at the end adds its id to the roots exactly when it is a root. */
  lemma RootsAmongSnoc(cs: seq<ReviewComment>, c: ReviewComment, ids: seq<nat>)
    ensures RootsAmong(cs + [c], ids) == RootsAmong(cs, ids) + (if IsRoot(c, ids) then [c.id] else [])
  {
    assert (cs + [c])[..|cs|] == cs;
  }

  /** One more comment at the end adds its id to the child ids of the parent it names. */
  lemma ChildIdsSnoc(cs: seq<ReviewComment>, c: ReviewComment, parent: nat)
    ensures ChildIds(cs + [c], parent) == ChildIds(cs, parent) + (if c.inReplyTo == Some(parent) then [c.id] else [])
  {
    assert (cs + [c])[..|cs|] == cs;
  }

  /** A comment followed by a reply to it make one tree, the reply its only child (test `builds_reply_under_parent`). */
  method ReplyUnderParent(parent: ReviewComment, reply: ReviewComment) returns (threads: seq<ReviewThread>)
    requires parent.inReplyTo.None? && reply.inReplyTo == Some(parent.id) && parent.id != reply.id
    ensures |threads| == 1 && threads[0].comment == parent
    ensures |threads[0].replies| == 1 && threads[0].replies[0].comment == reply
  {
    threads := BuildReviewThreads([parent, reply]);
    ParentAndReply([parent, reply], threads);
  }

  lemma ParentAndReply(comments: seq<ReviewComment>, threads: seq<ReviewThread>)
    requires |comments| == 2 && comments[0].inReplyTo.None? && comments[1].inReplyTo == Some(comments[0].id)
    requires comments[0].id != comments[1].id
    requires forall n :: n in NodesAll(threads) ==> Some(n.comment) == LastWithId(comments, n.comment.id)
    requires UniqueIds(comments) ==> ThreadIds(threads) == RootIds(comments)
    requires UniqueIds(comments) ==> forall n :: n in NodesAll(threads) ==> ThreadIds(n.replies) == ChildIds(comments, n.comment.id)
    ensures |threads| == 1 && threads[0].comment == comments[0]
    ensures |threads[0].replies| == 1 && threads[0].replies[0].comment == comments[1]
  {
    ParentAndReplyIds(comments);
    var ns := NodesAll(threads);
    var t := threads[0];
    assert t in Nodes(t);
    NodesAllMembers(threads, 0);
    PlacedIsInput(comments, ns, t, 0);
    assert ThreadIds(t.replies) == [comments[1].id];
    var r := t.replies[0];
    assert r in Nodes(r);
    NodesAllMembers(t.replies, 0);
    assert r in Nodes(t) by {
      assert Nodes(t) == [t] + NodesAll(t.replies);
    }
    PlacedIsInput(comments, ns, r, 1);
  }

  /** The ids of a comment followed by a reply to it: one root, one child. */
  lemma ParentAndReplyIds(comments: seq<ReviewComment>)
    requires |comments| == 2 && comments[0].inReplyTo.None? && comments[1].inReplyTo == Some(comments[0].id)
    requires comments[0].id != comments[1].id
    ensures UniqueIds(comments) && RootIds(comments) == [comments[0].id]
    ensures ChildIds(comments, comments[0].id) == [comments[1].id]
  {
    var parent, reply := comments[0], comments[1];
    var ids := CommentIds(comments);
    assert ids == [parent.id, reply.id];
    assert comments == [] + [parent] + [reply];
    RootsAmongSnoc([], parent, ids);
    RootsAmongSnoc([parent], reply, ids);
    ChildIdsSnoc([], parent, parent.id);
    ChildIdsSnoc([parent], reply, parent.id);
  }

  /** With unique ids, a placed node holds the input comment with its id. */
  lemma PlacedIsInput(comments: seq<ReviewComment>, ns: seq<ReviewThread>, n: ReviewThread, i: nat)
    requires UniqueIds(comments) && i < |comments| && n in ns && n.comment.id == comments[i].id
    requires forall m :: m in ns ==> Some(m.comment) == LastWithId(comments, m.comment.id)
    ensures n.comment == comments[i]
  {
    LastWithIdUnique(comments, i);
  }

  /** A lone comment not replying to itself is one tree, even when its parent is absent (test `orphan_reply_becomes_root`). */
  method LoneComment(c: ReviewComment) returns (threads: seq<ReviewThread>)
    requires c.inReplyTo != Some(c.id)
    ensures |threads| == 1 && threads[0].comment == c
  {
    threads := BuildReviewThreads([c]);
    OneComment([c], threads);
  }

  lemma OneComment(comments: seq<ReviewComment>, threads: seq<ReviewThread>)
    requires |comments| == 1 && comments[0].inReplyTo != Some(comments[0].id)
    requires forall n :: n in NodesAll(threads) ==> Some(n.comment) == LastWithId(comments, n.comment.id)
    requires UniqueIds(comments) ==> ThreadIds(threads) == RootIds(comments)
    ensures |threads| == 1 && threads[0].comment == comments[0]
  {
    OneCommentIds(comments);
    assert threads[0] in Nodes(threads[0]);
    NodesAllMembers(threads, 0);
    PlacedIsInput(comments, NodesAll(threads), threads[0], 0);
  }

  /** The ids of a lone comment not replying to itself: it is the one root. */
  lemma OneCommentIds(comments: seq<ReviewComment>)
    requires |comments| == 1 && comments[0].inReplyTo != Some(comments[0].id)
    ensures UniqueIds(comments) && RootIds(comments) == [comments[0].id]
  {
    var c := comments[0];
    var ids := CommentIds(comments);
    assert ids == [c.id];
    assert comments == [] + [c];
    RootsAmongSnoc([], c, ids);
  }

  /** The fixtures of `builds_reply_under_parent`: comment 2 replies to comment 1. */
  method BuildsReplyUnderParent() returns (threads: seq<ReviewThread>)
    ensures |threads| == 1 && threads[0].comment.id == 1
    ensures |threads[0].replies| == 1 && threads[0].replies[0].comment.id == 2
  {
    threads := ReplyUnderParent(Fixture(1, None), Fixture(2, Some(1)));
  }

  /** The fixture of `orphan_reply_becomes_root`: comment 5 replies to the absent comment 999. */
  method OrphanReplyBecomesRoot() returns (threads: seq<ReviewThread>)
    ensures |threads| == 1 && threads[0].comment.id == 5
  {
    threads := LoneComment(Fixture(5, Some(999)));
  }

  /** The materialized threads keep the links the replies map and the roots recorded. */
  lemma ThreadLinks(comments: seq<ReviewComment>, built: map<nat, BuildNode>, roots: seq<nat>, threads: seq<ReviewThread>)
    requires Keyed(built) && Linked(comments, built)
    requires forall k :: k in built <==> k in CommentIds(comments)
    requires RepliesFrom(built, CommentIds(comments))
    requires forall r :: r in roots ==> IsRootLink(comments, r)
    requires SubseqOf(roots, CommentIds(comments))
    requires Built(NodesAll(threads), built) && SubseqOf(ThreadIds(threads), roots)
    ensures forall n, ch :: n in NodesAll(threads) && ch in n.replies ==>
      IsReplyLink(comments, ch.comment.id, n.comment.id)
    ensures forall n :: n in NodesAll(threads) ==> SubseqOf(ThreadIds(n.replies), CommentIds(comments))
    ensures forall t :: t in threads ==> IsRootLink(comments, t.comment.id)
    ensures SubseqOf(ThreadIds(threads), CommentIds(comments))
  {
    ReplyLinks(comments, built, NodesAll(threads));
    var ids := CommentIds(comments);
    SubseqTrans(ThreadIds(threads), roots, ids);
    SubseqMembers(ThreadIds(threads), roots);
    forall t | t in threads ensures IsRootLink(comments, t.comment.id) {
      var m :| 0 <= m < |threads| && threads[m] == t;
      assert ThreadIds(threads)[m] == t.comment.id;
    }
  }

  /** Every materialized node's replies are, in order, comments that name it as their parent. */
  lemma ReplyLinks(comments: seq<ReviewComment>, built: map<nat, BuildNode>, nodes: seq<ReviewThread>)
    requires Keyed(built) && Linked(comments, built)
    requires forall k :: k in built <==> k in CommentIds(comments)
    requires RepliesFrom(built, CommentIds(comments))
    requires Built(nodes, built)
    ensures forall n, ch :: n in nodes && ch in n.replies ==> IsReplyLink(comments, ch.comment.id, n.comment.id)
    ensures forall n :: n in nodes ==> SubseqOf(ThreadIds(n.replies), CommentIds(comments))
  {
    var ids := CommentIds(comments);
    forall n | n in nodes ensures SubseqOf(ThreadIds(n.replies), ids) {
      SubseqTrans(ThreadIds(n.replies), built[n.comment.id].replies, ids);
    }
    forall n, ch | n in nodes && ch in n.replies
      ensures IsReplyLink(comments, ch.comment.id, n.comment.id)
    {
      var k := n.comment.id;
      SubseqMembers(ThreadIds(n.replies), built[k].replies);
      var m :| 0 <= m < |n.replies| && n.replies[m] == ch;
      assert ThreadIds(n.replies)[m] == ch.comment.id;
    }
  }

  // ---------------------------------------------------------------------
  // find_thread_resolution / set_thread_resolution / set_thread_resolved_without_id
  // ---------------------------------------------------------------------

  /** Resolution state per review-comment id, as the GraphQL review threads report it: (is resolved, thread id). */
  type ResolutionMap = map<nat, (bool, string)>

  /** The entry of the first node of `ns`, from the front, whose comment id has one. */
  function FirstResolution(ns: seq<ReviewThread>, m: ResolutionMap): Option<(bool, string)>
  {
    if |ns| == 0 then None
    else if ns[0].comment.id in m then Some(m[ns[0].comment.id])
    else FirstResolution(ns[1..], m)
  }

  /** `FirstResolution` is `None` exactly when no node has an entry, and otherwise the entry of the first node that has one. */
  lemma {:induction false} FirstResolutionSpec(ns: seq<ReviewThread>, m: ResolutionMap)
    ensures FirstResolution(ns, m).None? <==> forall i :: 0 <= i < |ns| ==> ns[i].comment.id !in m
    ensures forall i :: 0 <= i < |ns| && ns[i].comment.id in m && (forall j :: 0 <= j < i ==> ns[j].comment.id !in m) ==>
      FirstResolution(ns, m) == Some(m[ns[i].comment.id])
  {
    if |ns| > 0 {
      FirstResolutionSpec(ns[1..], m);
      if ns[0].comment.id !in m {
        forall i | 0 < i < |ns| ensures ns[i] == ns[1..][i - 1] { }
      }
    }
  }

  lemma {:induction false} FirstResolutionConcat(a: seq<ReviewThread>, b: seq<ReviewThread>, m: ResolutionMap)
    ensures FirstResolution(a + b, m) == FirstResolution(a, m).Or(FirstResolution(b, m))
  {
    if |a| > 0 {
      assert (a + b)[0] == a[0] && (a + b)[1..] == a[1..] + b;
      FirstResolutionConcat(a[1..], b, m);
    } else {
      assert a + b == b;
    }
  }

  /** `find_thread_resolution`: this comment's entry, or else the first one found among the replies in order. */
  function FindThreadResolution(t: ReviewThread, m: ResolutionMap): Option<(bool, string)>
    decreases t, 1
  {
    if t.comment.id in m then Some(m[t.comment.id]) else FindInReplies(t.replies, m)
  }

  /** The loop of `find_thread_resolution` over the replies: the first reply subtree with an entry wins. */
  function FindInReplies(ts: seq<ReviewThread>, m: ResolutionMap): Option<(bool, string)>
    decreases ts, 0
  {
    if |ts| == 0 then None else FindInReplies(ts[..|ts| - 1], m).Or(FindThreadResolution(ts[|ts| - 1], m))
  }

  /** The search finds the entry of the first node in preorder whose id has one. */
  lemma {:induction false} FindIsFirstInPreorder(t: ReviewThread, m: ResolutionMap)
    ensures FindThreadResolution(t, m) == FirstResolution(Nodes(t), m)
    decreases t, 1
  {
    FindInRepliesIsFirst(t.replies, m);
    assert Nodes(t) == [t] + NodesAll(t.replies);
    assert (Nodes(t))[1..] == NodesAll(t.replies);
  }

  lemma {:induction false} FindInRepliesIsFirst(ts: seq<ReviewThread>, m: ResolutionMap)
    ensures FindInReplies(ts, m) == FirstResolution(NodesAll(ts), m)
    decreases ts, 0
  {
    if |ts| > 0 {
      var init, last := ts[..|ts| - 1], ts[|ts| - 1];
      FindInRepliesIsFirst(init, m);
      FindIsFirstInPreorder(last, m);
      FirstResolutionConcat(NodesAll(init), Nodes(last), m);
    }
  }

  /** Same comments node for node, in preorder, each node with the same reply ids. */
  predicate SameComments(a: seq<ReviewThread>, b: seq<ReviewThread>)
  {
    |a| == |b| &&
    forall k :: 0 <= k < |a| ==> a[k].comment == b[k].comment && ThreadIds(a[k].replies) == ThreadIds(b[k].replies)
  }

  /** Same thread ids node for node, in preorder. */
  predicate SameThreadIds(a: seq<ReviewThread>, b: seq<ReviewThread>)
  {
    |a| == |b| && forall k :: 0 <= k < |a| ==> a[k].threadId == b[k].threadId
  }

  /** Every node carries this resolution state. */
  predicate AllMarked(ns: seq<ReviewThread>, resolved: bool, threadId: Option<string>)
  {
    forall k :: 0 <= k < |ns| ==> ns[k].isResolved == resolved && ns[k].threadId == threadId
  }

  lemma SameConcat(a1: seq<ReviewThread>, a2: seq<ReviewThread>, b1: seq<ReviewThread>, b2: seq<ReviewThread>)
    requires SameComments(a1, b1) && SameComments(a2, b2)
    ensures SameComments(a1 + a2, b1 + b2)
    ensures SameThreadIds(a1, b1) && SameThreadIds(a2, b2) ==> SameThreadIds(a1 + a2, b1 + b2)
  {
  }

  /** `set_thread_resolution`: the node and, recursively, each reply take the given state. */
  function SetThreadResolution(t: ReviewThread, resolved: bool, threadId: string): ReviewThread
    decreases t, 1
  {
    ReviewThread(Some(threadId), resolved, t.comment, SetAllResolution(t.replies, resolved, threadId))
  }

  function SetAllResolution(ts: seq<ReviewThread>, resolved: bool, threadId: string): (r: seq<ReviewThread>)
    ensures |r| == |ts| && forall k :: 0 <= k < |ts| ==> r[k].comment == ts[k].comment
    decreases ts, 0
  {
    if |ts| == 0 then []
    else SetAllResolution(ts[..|ts| - 1], resolved, threadId) + [SetThreadResolution(ts[|ts| - 1], resolved, threadId)]
  }

  /** Every node of the subtree, and nothing else, takes the same state; the comments stay in place. */
  lemma {:induction false} SetThreadResolutionNodes(t: ReviewThread, resolved: bool, threadId: string)
    ensures SameComments(Nodes(SetThreadResolution(t, resolved, threadId)), Nodes(t))
    ensures AllMarked(Nodes(SetThreadResolution(t, resolved, threadId)), resolved, Some(threadId))
    decreases t, 1
  {
    SetAllResolutionNodes(t.replies, resolved, threadId);
    var u := SetThreadResolution(t, resolved, threadId);
    assert Nodes(u) == [u] + NodesAll(u.replies);
    assert ThreadIds(u.replies) == ThreadIds(t.replies);
    assert SameComments([u], [t]);
    SameConcat([u], NodesAll(u.replies), [t], NodesAll(t.replies));
  }

  lemma {:induction false} SetAllResolutionNodes(ts: seq<ReviewThread>, resolved: bool, threadId: string)
    ensures SameComments(NodesAll(SetAllResolution(ts, resolved, threadId)), NodesAll(ts))
    ensures AllMarked(NodesAll(SetAllResolution(ts, resolved, threadId)), resolved, Some(threadId))
    decreases ts, 0
  {
    if |ts| > 0 {
      var us := SetAllResolution(ts, resolved, threadId);
      var init := ts[..|ts| - 1];
      SetAllResolutionNodes(init, resolved, threadId);
      SetThreadResolutionNodes(ts[|ts| - 1], resolved, threadId);
      assert us[..|us| - 1] == SetAllResolution(init, resolved, threadId);
      SameConcat(NodesAll(us[..|us| - 1]), Nodes(us[|us| - 1]), NodesAll(init), Nodes(ts[|ts| - 1]));
    }
  }

  /** `set_thread_resolved_without_id`: the node and, recursively, each reply become resolved. */
  function SetResolvedWithoutId(t: ReviewThread): ReviewThread
    decreases t, 1
  {
    t.(isResolved := true, replies := SetAllResolvedWithoutId(t.replies))
  }

  function SetAllResolvedWithoutId(ts: seq<ReviewThread>): (r: seq<ReviewThread>)
    ensures |r| == |ts| && forall k :: 0 <= k < |ts| ==> r[k].comment == ts[k].comment
    decreases ts, 0
  {
    if |ts| == 0 then [] else SetAllResolvedWithoutId(ts[..|ts| - 1]) + [SetResolvedWithoutId(ts[|ts| - 1])]
  }

  /** Every node of the subtree becomes resolved; comments and thread ids stay in place. */
  lemma {:induction false} SetResolvedWithoutIdNodes(t: ReviewThread)
    ensures SameComments(Nodes(SetResolvedWithoutId(t)), Nodes(t))
    ensures SameThreadIds(Nodes(SetResolvedWithoutId(t)), Nodes(t))
    ensures forall n :: n in Nodes(SetResolvedWithoutId(t)) ==> n.isResolved
    decreases t, 1
  {
    SetAllResolvedWithoutIdNodes(t.replies);
    var u := SetResolvedWithoutId(t);
    assert Nodes(u) == [u] + NodesAll(u.replies);
    assert ThreadIds(u.replies) == ThreadIds(t.replies);
    SameConcat([u], NodesAll(u.replies), [t], NodesAll(t.replies));
  }

  lemma {:induction false} SetAllResolvedWithoutIdNodes(ts: seq<ReviewThread>)
    ensures SameComments(NodesAll(SetAllResolvedWithoutId(ts)), NodesAll(ts))
    ensures SameThreadIds(NodesAll(SetAllResolvedWithoutId(ts)), NodesAll(ts))
    ensures forall n :: n in NodesAll(SetAllResolvedWithoutId(ts)) ==> n.isResolved
    decreases ts, 0
  {
    if |ts| > 0 {
      var us := SetAllResolvedWithoutId(ts);
      var init := ts[..|ts| - 1];
      SetAllResolvedWithoutIdNodes(init);
      SetResolvedWithoutIdNodes(ts[|ts| - 1]);
      assert us[..|us| - 1] == SetAllResolvedWithoutId(init);
      SameConcat(NodesAll(us[..|us| - 1]), Nodes(us[|us| - 1]), NodesAll(init), Nodes(ts[|ts| - 1]));
    }
  }

  /** `apply_thread_resolution`: the state found for the thread is pushed down its whole subtree. */
  function ApplyThreadResolution(t: ReviewThread, m: ResolutionMap): ReviewThread
  {
    match FindThreadResolution(t, m)
    case Some((resolved, threadId)) => SetThreadResolution(t, resolved, threadId)
    case None => t
  }

  /** `NodesAll` holds every node of every tree in the list. */
  lemma {:induction false} NodesAllMembers(ts: seq<ReviewThread>, i: nat)
    requires i < |ts|
    ensures forall n :: n in Nodes(ts[i]) ==> n in NodesAll(ts)
  {
    if i < |ts| - 1 {
      NodesAllMembers(ts[..|ts| - 1], i);
    }
  }

  /** One pass of the loop of `list_review_comment_threads`: apply the found state, then resolve a thread still without id. */
  function ResolveThread(t: ReviewThread, m: ResolutionMap): ReviewThread
  {
    var u := ApplyThreadResolution(t, m);
    if u.threadId.None? then SetResolvedWithoutId(u) else u
  }

  /**
   * `u` is `t` after resolution: the same comments in the same places; the
   * state of the first node in preorder with an entry on every node; with no
   * entry, thread ids kept and, for a thread without id, every node resolved.
   */
  predicate ResolvedFrom(u: ReviewThread, t: ReviewThread, m: ResolutionMap)
  {
    var found := FirstResolution(Nodes(t), m);
    SameComments(Nodes(u), Nodes(t)) &&
    (found.Some? ==> AllMarked(Nodes(u), found.value.0, Some(found.value.1))) &&
    (found.None? ==> SameThreadIds(Nodes(u), Nodes(t)) &&
                     (t.threadId.None? ==> forall n :: n in Nodes(u) ==> n.isResolved))
  }

  lemma ResolveThreadSpec(t: ReviewThread, m: ResolutionMap)
    ensures ResolvedFrom(ResolveThread(t, m), t, m)
  {
    FindIsFirstInPreorder(t, m);
    var found := FindThreadResolution(t, m);
    var u := ApplyThreadResolution(t, m);
    if found.Some? {
      SetThreadResolutionNodes(t, found.value.0, found.value.1);
      assert Nodes(u)[0] == u;
    } else {
      SetResolvedWithoutIdNodes(u);
    }
  }

  /**
   * The loop of `list_review_comment_threads` after the threads are built:
   * every thread is resolved in place.
   */
  method ResolveThreads(threads: seq<ReviewThread>, m: ResolutionMap) returns (out: seq<ReviewThread>)
    ensures |out| == |threads|
    ensures forall i :: 0 <= i < |threads| ==> ResolvedFrom(out[i], threads[i], m)
  {
    out := [];
    var i := 0;
    while i < |threads|
      invariant 0 <= i <= |threads| && |out| == i
      invariant forall j :: 0 <= j < i ==> ResolvedFrom(out[j], threads[j], m)
    {
      ResolveThreadSpec(threads[i], m);
      out := out + [ResolveThread(threads[i], m)];
      i := i + 1;
    }
  }

  /** A freshly built thread, once resolved, has one state on every node, and is resolved if it has no thread id. */
  lemma ResolvedFreshShared(u: ReviewThread, t: ReviewThread, m: ResolutionMap)
    requires ResolvedFrom(u, t, m)
    requires forall n :: n in Nodes(t) ==> n.threadId.None?
    ensures forall n :: n in Nodes(u) ==> n.isResolved == u.isResolved && n.threadId == u.threadId
    ensures u.threadId.None? ==> u.isResolved
    ensures forall n :: n in Nodes(u) ==> exists c :: c in Nodes(t) && c.comment == n.comment
  {
    var ns, ts := Nodes(u), Nodes(t);
    assert ns[0] == u && ts[0] == t;
    forall n | n in ns
      ensures n.isResolved == u.isResolved && n.threadId == u.threadId
      ensures exists c :: c in ts && c.comment == n.comment
    {
      var k :| 0 <= k < |ns| && ns[k] == n;
      assert ts[k] in ts;
    }
  }

  /** Resolving every tree keeps the forest's comments and reply ids in place, node for node. */
  lemma {:induction false} ResolvedForest(out: seq<ReviewThread>, threads: seq<ReviewThread>, m: ResolutionMap)
    requires |out| == |threads| && forall i :: 0 <= i < |threads| ==> ResolvedFrom(out[i], threads[i], m)
    ensures SameComments(NodesAll(out), NodesAll(threads)) && ThreadIds(out) == ThreadIds(threads)
  {
    forall i | 0 <= i < |threads| ensures out[i].comment == threads[i].comment {
      assert Nodes(out[i])[0] == out[i] && Nodes(threads[i])[0] == threads[i];
    }
    if |threads| > 0 {
      var n := |threads| - 1;
      ResolvedForest(out[..n], threads[..n], m);
      SameConcat(NodesAll(out[..n]), Nodes(out[n]), NodesAll(threads[..n]), Nodes(threads[n]));
    }
  }

  /** The forest facts depend only on each node's comment and reply ids, so they survive resolution. */
  lemma ForestTransfer(comments: seq<ReviewComment>, a: seq<ReviewThread>, b: seq<ReviewThread>)
    requires SameComments(NodesAll(a), NodesAll(b)) && ThreadIds(a) == ThreadIds(b) && Forest(comments, b)
    ensures Forest(comments, a)
  {
    var na, nb := NodesAll(a), NodesAll(b);
    SameIdSet(na, nb);
    SameDrawn(comments, na, nb);
    assert DistinctIds(na);
  }

  lemma SameIdSet(na: seq<ReviewThread>, nb: seq<ReviewThread>)
    requires SameComments(na, nb)
    ensures IdSet(na) == IdSet(nb)
  {
    forall x | x in IdSet(na) ensures x in IdSet(nb) {
      var n :| n in na && n.comment.id == x;
      var k :| 0 <= k < |na| && na[k] == n;
      assert nb[k] in nb;
    }
    forall x | x in IdSet(nb) ensures x in IdSet(na) {
      var n :| n in nb && n.comment.id == x;
      var k :| 0 <= k < |nb| && nb[k] == n;
      assert na[k] in na;
    }
  }

  lemma SameDrawn(comments: seq<ReviewComment>, na: seq<ReviewThread>, nb: seq<ReviewThread>)
    requires SameComments(na, nb) && IdSet(na) == IdSet(nb)
    requires DrawnFrom(comments, nb) && Covers(comments, nb)
    ensures DrawnFrom(comments, na) && Covers(comments, na)
  {
    forall n | n in na
      ensures n.comment in comments && Some(n.comment) == LastWithId(comments, n.comment.id)
      ensures SubseqOf(ThreadIds(n.replies), ChildIds(comments, n.comment.id))
      ensures forall x :: x in ChildIds(comments, n.comment.id) ==> x in IdSet(na)
    {
      var k :| 0 <= k < |na| && na[k] == n;
      assert nb[k] in nb;
    }
  }

  /**
   * `list_review_comment_threads` once the comments and the resolution map
   * are fetched: the threads are built, then resolved; every node of a
   * thread shares that thread's state, a thread with no thread id is
   * resolved, and resolution leaves the forest of `BuildReviewThreads` in
   * place: the same comments, roots and replies, hence the same
   * completeness when ids are unique and no chain of parents loops.
   */
  method ListReviewThreads(comments: seq<ReviewComment>, m: ResolutionMap) returns (threads: seq<ReviewThread>)
    ensures forall i, n :: 0 <= i < |threads| && n in Nodes(threads[i]) ==>
      n.isResolved == threads[i].isResolved && n.threadId == threads[i].threadId
    ensures forall i :: 0 <= i < |threads| && threads[i].threadId.None? ==> threads[i].isResolved
    ensures forall i, n :: 0 <= i < |threads| && n in Nodes(threads[i]) ==> n.comment in comments
    ensures Forest(comments, threads)
    ensures UniqueIds(comments) ==> ThreadIds(threads) == RootIds(comments)
    ensures UniqueIds(comments) ==> forall n :: n in NodesAll(threads) ==> ThreadIds(n.replies) == ChildIds(comments, n.comment.id)
    ensures Acyclic(comments) ==> forall c :: c in comments ==> c.id in IdSet(NodesAll(threads))
    ensures UniqueIds(comments) && Acyclic(comments) ==> forall c :: c in comments ==> exists n :: n in NodesAll(threads) && n.comment == c
  {
    var built := BuildReviewThreads(comments);
    threads := ResolveThreads(built, m);
    forall i | 0 <= i < |threads|
      ensures forall n :: n in Nodes(threads[i]) ==>
        n.isResolved == threads[i].isResolved && n.threadId == threads[i].threadId && n.comment in comments
      ensures threads[i].threadId.None? ==> threads[i].isResolved
    {
      NodesAllMembers(built, i);
      ResolvedFreshShared(threads[i], built[i], m);
    }
    ResolvedForest(threads, built, m);
    ForestTransfer(comments, threads, built);
    ForestExact(comments, threads);
  }

  // ---------------------------------------------------------------------
  // Review submission: event validation and the returned state
  // ---------------------------------------------------------------------

  /** The review states the hosting API reports. */
  datatype ReviewState = Approved | Pending | ChangesRequested | Commented | Dismissed

  datatype SubmitError =
    | InvalidReviewEvent(event: string)
    | UnexpectedReviewState(event: string, state: Option<ReviewState>)

  /** The three events a review may be submitted with. */
  predicate IsReviewEvent(event: string)
  {
    event == "COMMENT" || event == "APPROVE" || event == "REQUEST_CHANGES"
  }

  /** The event check that opens `submit_pull_request_review`. */
  function ValidateReviewEvent(event: string): (r: Result<string, SubmitError>)
    ensures r.Ok? <==> IsReviewEvent(event)
    ensures r.Ok? ==> r.value == event
    ensures r.Err? ==> r.error == InvalidReviewEvent(event)
  {
    if event == "COMMENT" || event == "APPROVE" || event == "REQUEST_CHANGES" then Ok(event)
    else Err(InvalidReviewEvent(event))
  }

  /** The state a submitted review must come back in, per event. */
  function ExpectedState(event: string): Option<ReviewState>
  {
    if event == "COMMENT" then Some(Commented)
    else if event == "APPROVE" then Some(Approved)
    else if event == "REQUEST_CHANGES" then Some(ChangesRequested)
    else None
  }

  /**
   * `submit_pull_request_review` with the hosting API's reply as a
   * parameter: `returned` is the state of the review the request created.
   * The result says whether a request was sent at all.
   */
  function SubmitReview(event: string, returned: Option<ReviewState>): (r: (bool, Result<(), SubmitError>))
  {
    match ValidateReviewEvent(event)
    case Err(e) => (false, Err(e))
    case Ok(ev) =>
      var expected := ExpectedState(ev);
      if expected.Some? && returned != expected then (true, Err(UnexpectedReviewState(ev, returned)))
      else (true, Ok(()))
  }

  /**
   * An event outside the three is rejected before any request, whatever the
   * server would have answered; a valid event succeeds exactly when the
   * review comes back in the state that event names.
   */
  lemma SubmitReviewOutcome(event: string, returned: Option<ReviewState>)
    ensures !IsReviewEvent(event) ==> SubmitReview(event, returned) == (false, Err(InvalidReviewEvent(event)))
    ensures IsReviewEvent(event) ==> SubmitReview(event, returned).0 && ExpectedState(event).Some?
    ensures IsReviewEvent(event) ==>
      (SubmitReview(event, returned).1.Ok? <==> returned == ExpectedState(event))
  {
  }

  /** Distinct events expect distinct states. */
  lemma ExpectedStateInjective(a: string, b: string)
    requires IsReviewEvent(a) && IsReviewEvent(b) && ExpectedState(a) == ExpectedState(b)
    ensures a == b
  {
  }

  // ---------------------------------------------------------------------
  // fetch_pull_request_data: the review-summary filter and the merge by time
  // ---------------------------------------------------------------------

  /** The filter of `list_pull_review_summary_comments`: only reviews with a non-blank body are kept. */
  function KeepSummaries(reviews: seq<ReviewSummary>): (r: seq<ReviewSummary>)
    ensures SubseqOf(r, reviews)
    ensures forall x :: x in r ==> x.body.Some? && !IsBlank(x.body.value)
    ensures forall x :: x in reviews && x.body.Some? && !IsBlank(x.body.value) ==> x in r
  {
    if |reviews| == 0 then []
    else
      var last := reviews[|reviews| - 1];
      var kept := KeepSummaries(reviews[..|reviews| - 1]);
      KeepSummaryOneMore(kept, reviews);
      if HasSummary(last) then kept + [last] else kept
  }

  /** A review whose body is present and not blank. */
  predicate HasSummary(x: ReviewSummary)
  {
    x.body.Some? && !IsBlank(x.body.value)
  }

  /** One more review through the filter of `KeepSummaries`. */
  lemma KeepSummaryOneMore(kept: seq<ReviewSummary>, reviews: seq<ReviewSummary>)
    requires |reviews| > 0
    requires SubseqOf(kept, reviews[..|reviews| - 1])
    requires forall x :: x in kept ==> HasSummary(x)
    requires forall x :: x in reviews[..|reviews| - 1] && HasSummary(x) ==> x in kept
    ensures var last := reviews[|reviews| - 1];
      var r := if HasSummary(last) then kept + [last] else kept;
      SubseqOf(r, reviews) && (forall x :: x in r ==> HasSummary(x)) &&
      forall x :: x in reviews && HasSummary(x) ==> x in r
  {
    var init, last := reviews[..|reviews| - 1], reviews[|reviews| - 1];
    assert reviews == init + [last];
    if HasSummary(last) {
      SubseqAppendBoth(kept, init, last);
    } else {
      SubseqExtend(kept, init, last);
    }
  }

  /** The time an entry is ordered by: creation for comments, submission (0 when absent) for reviews. */
  function EntryTime(e: PullRequestComment): int
  {
    match e
    case ThreadEntry(t) => t.comment.createdAtMs
    case IssueEntry(c) => c.createdAtMs
    case SummaryEntry(s) => s.submittedAtMs.UnwrapOr(0)
  }

  /** The list before sorting: threads, then issue comments, then kept review summaries. */
  function Chained(threads: seq<ReviewThread>, issues: seq<IssueComment>, summaries: seq<ReviewSummary>): (r: seq<PullRequestComment>)
    ensures |r| == |threads| + |issues| + |summaries|
    ensures forall i :: 0 <= i < |threads| ==> r[i] == ThreadEntry(threads[i])
    ensures forall i :: 0 <= i < |issues| ==> r[|threads| + i] == IssueEntry(issues[i])
    ensures forall i :: 0 <= i < |summaries| ==> r[|threads| + |issues| + i] == SummaryEntry(summaries[i])
  {
    seq(|threads|, i requires 0 <= i < |threads| => ThreadEntry(threads[i])) +
    seq(|issues|, i requires 0 <= i < |issues| => IssueEntry(issues[i])) +
    seq(|summaries|, i requires 0 <= i < |summaries| => SummaryEntry(summaries[i]))
  }

  /** An entry with its sort key and its position in the chained list. */
  datatype Timed = Timed(ms: int, pos: nat, entry: PullRequestComment)

  function Tagged(es: seq<PullRequestComment>): (r: seq<Timed>)
    ensures |r| == |es|
    ensures forall i :: 0 <= i < |es| ==> r[i] == Timed(EntryTime(es[i]), i, es[i])
  {
    seq(|es|, i requires 0 <= i < |es| => Timed(EntryTime(es[i]), i, es[i]))
  }

  /** Earlier in time, or at the same time and earlier in the chained list. */
  predicate Before(a: Timed, b: Timed)
  {
    a.ms < b.ms || (a.ms == b.ms && a.pos < b.pos)
  }

  predicate InTimeOrder(s: seq<Timed>)
  {
    forall i, j :: 0 <= i < j < |s| ==> Before(s[i], s[j])
  }

  /** `x` placed after every element with a time not later than its own. */
  function InsertStable(s: seq<Timed>, x: Timed): (r: seq<Timed>)
    ensures multiset(r) == multiset(s) + multiset{x}
  {
    if |s| == 0 || s[|s| - 1].ms <= x.ms then s + [x]
    else
      assert s == s[..|s| - 1] + [s[|s| - 1]];
      InsertStable(s[..|s| - 1], x) + [s[|s| - 1]]
  }

  /** `sort_by` on the time: a stable insertion sort. */
  function SortStable(s: seq<Timed>): (r: seq<Timed>)
    ensures multiset(r) == multiset(s)
  {
    if |s| == 0 then []
    else
      assert s == s[..|s| - 1] + [s[|s| - 1]];
      InsertStable(SortStable(s[..|s| - 1]), s[|s| - 1])
  }

  lemma {:induction false} InsertStableOrdered(s: seq<Timed>, x: Timed)
    requires InTimeOrder(s) && forall y :: y in s ==> y.pos < x.pos
    ensures InTimeOrder(InsertStable(s, x))
  {
    if |s| > 0 && s[|s| - 1].ms > x.ms {
      var init, last := s[..|s| - 1], s[|s| - 1];
      InitBeforeLast(s);
      InsertStableOrdered(init, x);
      var r := InsertStable(init, x);
      AllBefore(r, init, x, last);
      SnocOrdered(r, last);
    }
  }

  /** In a list in time order, everything before the last element comes before it, and is in the list. */
  lemma InitBeforeLast(s: seq<Timed>)
    requires InTimeOrder(s) && |s| > 0
    ensures forall y :: y in s[..|s| - 1] ==> Before(y, s[|s| - 1]) && y in s
  {
    forall y | y in s[..|s| - 1] ensures Before(y, s[|s| - 1]) && y in s {
      var k :| 0 <= k < |s| - 1 && s[..|s| - 1][k] == y;
      assert s[k] == y;
    }
  }

  /** What holds the elements of `init` and `x` comes before `last` when each of them does. */
  lemma AllBefore(r: seq<Timed>, init: seq<Timed>, x: Timed, last: Timed)
    requires multiset(r) == multiset(init) + multiset{x}
    requires Before(x, last) && forall y :: y in init ==> Before(y, last)
    ensures forall y :: y in r ==> Before(y, last)
  {
    forall y | y in r ensures Before(y, last) {
      assert y in multiset(r);
      if y != x {
        assert y in init;
      }
    }
  }

  /** Appending an element that comes after every element keeps the order. */
  lemma SnocOrdered(r: seq<Timed>, last: Timed)
    requires InTimeOrder(r) && forall y :: y in r ==> Before(y, last)
    ensures InTimeOrder(r + [last])
  {
    forall i | 0 <= i < |r| ensures Before((r + [last])[i], last) {
      assert r[i] in r;
    }
  }

  /** Positions strictly increase along the sequence, as they do in a tagged list. */
  predicate PositionsIncrease(s: seq<Timed>)
  {
    forall i, j :: 0 <= i < j < |s| ==> s[i].pos < s[j].pos
  }

  lemma {:induction false} SortStableOrdered(s: seq<Timed>)
    requires PositionsIncrease(s)
    ensures InTimeOrder(SortStable(s))
  {
    if |s| > 0 {
      var init, last := s[..|s| - 1], s[|s| - 1];
      SortStableOrdered(init);
      var sorted := SortStable(init);
      forall y | y in sorted ensures y.pos < last.pos {
        assert y in multiset(sorted);
        var k :| 0 <= k < |init| && init[k] == y;
      }
      InsertStableOrdered(sorted, last);
    }
  }

  /** The comment list of `fetch_pull_request_data`: the chained entries ordered by time, stably. */
  function MergeByTime(threads: seq<ReviewThread>, issues: seq<IssueComment>, summaries: seq<ReviewSummary>): seq<PullRequestComment>
  {
    Entries(SortStable(Tagged(Chained(threads, issues, KeepSummaries(summaries)))))
  }

  /** The entries of a tagged list, tags dropped. */
  function Entries(ts: seq<Timed>): (r: seq<PullRequestComment>)
    ensures |r| == |ts| && forall i :: 0 <= i < |ts| ==> r[i] == ts[i].entry
  {
    seq(|ts|, i requires 0 <= i < |ts| => ts[i].entry)
  }

  /** Sorting a tagged list keeps its length, and each entry keeps the time and position it was tagged with. */
  lemma SortTaggedEntries(es: seq<PullRequestComment>)
    ensures |SortStable(Tagged(es))| == |es|
    ensures forall i :: 0 <= i < |es| ==>
      (SortStable(Tagged(es))[i].pos < |es| &&
       SortStable(Tagged(es))[i].entry == es[SortStable(Tagged(es))[i].pos] &&
       SortStable(Tagged(es))[i].ms == EntryTime(SortStable(Tagged(es))[i].entry))
  {
    var tagged := Tagged(es);
    var sorted := SortStable(tagged);
    assert |sorted| == |tagged| by {
      assert |multiset(sorted)| == |multiset(tagged)|;
    }
    forall i | 0 <= i < |sorted|
      ensures sorted[i].pos < |es| && sorted[i].entry == es[sorted[i].pos] && sorted[i].ms == EntryTime(sorted[i].entry)
    {
      assert sorted[i] in multiset(tagged);
      var k :| 0 <= k < |tagged| && tagged[k] == sorted[i];
    }
  }

  /**
   * The merged list is the chained list rearranged so that times never
   * decrease, with entries of equal time in their chained order: each output
   * entry is the chained entry at a distinct position, and the positions
   * follow (time, position) order.
   */
  lemma MergeByTimeSpec(threads: seq<ReviewThread>, issues: seq<IssueComment>, summaries: seq<ReviewSummary>)
    ensures var es := Chained(threads, issues, KeepSummaries(summaries));
      var r := MergeByTime(threads, issues, summaries);
      var sorted := SortStable(Tagged(es));
      |r| == |es| && multiset(sorted) == multiset(Tagged(es)) &&
      (forall i :: 0 <= i < |r| ==> sorted[i].pos < |es| && r[i] == es[sorted[i].pos] && sorted[i].ms == EntryTime(r[i])) &&
      (forall i, j :: 0 <= i < j < |r| ==>
         (EntryTime(r[i]) < EntryTime(r[j]) || (EntryTime(r[i]) == EntryTime(r[j]) && sorted[i].pos < sorted[j].pos)))
  {
    var es := Chained(threads, issues, KeepSummaries(summaries));
    SortStableOrdered(Tagged(es));
    SortTaggedEntries(es);
  }

  /**
   * `fetch_pull_request_data` once the hosting API has answered: the changed
   * paths are sorted, and the listed threads, the issue comments and the
   * review summaries are merged by time.
   */
  function AssemblePullRequestData(headRef: string, baseRef: string, headSha: string, baseSha: string,
                                   files: seq<string>, threads: seq<ReviewThread>,
                                   issues: seq<IssueComment>, reviews: seq<ReviewSummary>): (d: PullRequestData)
    ensures d.headRef == headRef && d.baseRef == baseRef && d.headSha == headSha && d.baseSha == baseSha
    ensures |d.changedFiles| == |files| && multiset(d.changedFiles) == multiset(files)
    ensures forall i, j :: 0 <= i < j < |d.changedFiles| ==> StrLe(d.changedFiles[i], d.changedFiles[j])
    ensures d.comments == MergeByTime(threads, issues, reviews)
  {
    SortStringsSpec(files);
    PullRequestData(headRef, baseRef, headSha, baseSha, SortStrings(files), MergeByTime(threads, issues, reviews))
  }
}
