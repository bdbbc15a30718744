/**
 * Flattening review threads into left-pane list nodes: the thread's own
 * node, then (unless the thread is collapsed) one node per reply in
 * preorder, one level deeper than its parent, carrying the root's key and
 * its parent's resolution state.
 */
module ThreadNodes {
  import opened Wrappers
  import opened Text
  import opened Domain
  import opened Comments

  const ThreadPrefix := "thread:"
  const CommentPrefix := "comment:"
  const ReplyPrefix := "reply:"
  const GroupPrefix := "review-group:"

  /** `thread_key`: the trimmed thread id when it is not empty, else the root comment's id. */
  function ThreadKey(t: ReviewThread): string
  {
    match t.threadId
    case Some(id) => if Trim(id) != [] then ThreadPrefix + Trim(id) else CommentPrefix + NatToString(t.comment.id)
    case None => CommentPrefix + NatToString(t.comment.id)
  }

  /** `review_group_key`. */
  function ReviewGroupKey(reviewId: nat): string
  {
    GroupPrefix + NatToString(reviewId)
  }

  /** `is_review_group_key`. */
  predicate IsReviewGroupKey(key: string)
  {
    StartsWith(key, GroupPrefix)
  }

  /** The key of a reply node. */
  function ReplyKey(c: ReviewComment): string
  {
    ReplyPrefix + NatToString(c.id)
  }

  /**
   * Group keys are recognised, and keys of the other kinds never are: a
   * thread or reply node is never taken for a review group.
   */
  lemma GroupKeysRecognised(reviewId: nat, t: ReviewThread, c: ReviewComment)
    ensures IsReviewGroupKey(ReviewGroupKey(reviewId))
    ensures !IsReviewGroupKey(ThreadKey(t))
    ensures !IsReviewGroupKey(ReplyKey(c))
  {
    var k := ThreadKey(t);
    assert k[0] == 't' || k[0] == 'c';
    assert ReplyKey(c)[0] == 'r' && ReplyKey(c)[1] == 'e' && ReplyKey(c)[2] == 'p';
  }

  /** A thread with a usable id is keyed by it; otherwise by its root comment. */
  predicate HasThreadId(t: ReviewThread)
  {
    t.threadId.Some? && Trim(t.threadId.value) != []
  }

  /**
   * The key tells which way it was made, and loses nothing: a "thread:"
   * key gives back the trimmed id, and two threads keyed by their root
   * comments share a key only when the roots have the same id.
   */
  lemma ThreadKeySpec(t: ReviewThread, u: ReviewThread)
    ensures StartsWith(ThreadKey(t), ThreadPrefix) <==> HasThreadId(t)
    ensures HasThreadId(t) ==> ThreadKey(t)[|ThreadPrefix|..] == Trim(t.threadId.value)
    ensures !HasThreadId(t) && !HasThreadId(u) && t.comment.id != u.comment.id ==> ThreadKey(t) != ThreadKey(u)
  {
    if !HasThreadId(t) {
      assert ThreadKey(t)[0] == 'c';
      if !HasThreadId(u) && ThreadKey(t) == ThreadKey(u) {
        assert NatToString(t.comment.id) == ThreadKey(t)[|CommentPrefix|..];
        assert NatToString(u.comment.id) == ThreadKey(u)[|CommentPrefix|..];
        NatToStringInjective(t.comment.id, u.comment.id);
      }
    }
  }

  /** Two different comments never give the same reply key. */
  lemma ReplyKeysFollowIds(a: ReviewComment, b: ReviewComment)
    requires a.id != b.id
    ensures ReplyKey(a) != ReplyKey(b)
  {
    if ReplyKey(a) == ReplyKey(b) {
      assert NatToString(a.id) == ReplyKey(a)[|ReplyPrefix|..];
      assert NatToString(b.id) == ReplyKey(b)[|ReplyPrefix|..];
      NatToStringInjective(a.id, b.id);
    }
  }

  /** The node standing for a thread's root comment, keyed `key`. */
  function ThreadRow(t: ReviewThread, depth: nat, key: string): ListNode
  {
    ListNode(key, ThreadNode, depth, Some(key), t.isResolved, ReviewCommentIsOutdated(t.comment), ReviewRef(t.comment))
  }

  /** The node standing for reply `child` under `parent`. */
  function ReplyRow(parent: ReviewThread, child: ReviewThread, depth: nat, rootKey: string): ListNode
  {
    ListNode(ReplyKey(child.comment), ReplyNode, depth, Some(rootKey), parent.isResolved,
             ReviewCommentIsOutdated(child.comment), ReviewRef(child.comment))
  }

  /** A reply in the flattened tree: its parent, itself, and the depth it is shown at. */
  datatype Edge = Edge(parent: ReviewThread, child: ReviewThread, depth: nat)

  /** The replies below `t` in preorder, the direct ones at `depth`. */
  function Edges(t: ReviewThread, depth: nat): seq<Edge>
    decreases t, 1
  {
    EdgesAll(t, t.replies, depth)
  }

  /** The replies `ts` of `parent` at `depth`, each followed by its own replies. */
  function EdgesAll(parent: ReviewThread, ts: seq<ReviewThread>, depth: nat): seq<Edge>
    decreases ts, 0
  {
    if |ts| == 0 then []
    else
      var last := ts[|ts| - 1];
      EdgesAll(parent, ts[..|ts| - 1], depth) + [Edge(parent, last, depth)] + Edges(last, depth + 1)
  }

  /** The nodes for a run of edges. */
  function Rows(es: seq<Edge>, rootKey: string): seq<ListNode>
  {
    seq(|es|, i requires 0 <= i < |es| => ReplyRow(es[i].parent, es[i].child, es[i].depth, rootKey))
  }

  /** The nodes `append_reply_nodes` adds for the replies below `t`. */
  function ReplyRows(t: ReviewThread, depth: nat, rootKey: string): seq<ListNode>
  {
    Rows(Edges(t, depth), rootKey)
  }

  lemma RowsConcat(a: seq<Edge>, b: seq<Edge>, rootKey: string)
    ensures Rows(a + b, rootKey) == Rows(a, rootKey) + Rows(b, rootKey)
  {
    var l, r := Rows(a + b, rootKey), Rows(a, rootKey) + Rows(b, rootKey);
    assert |l| == |r|;
    forall i | 0 <= i < |l| ensures l[i] == r[i] {
      if i < |a| {
        assert (a + b)[i] == a[i];
      } else {
        assert (a + b)[i] == b[i - |a|];
      }
    }
  }

  /** The edges of the first `i + 1` replies: those of the first `i`, then reply `i` and its subtree. */
  lemma EdgesAllStep(t: ReviewThread, i: nat, depth: nat)
    requires i < |t.replies|
    ensures EdgesAll(t, t.replies[..i + 1], depth) ==
      EdgesAll(t, t.replies[..i], depth) + [Edge(t, t.replies[i], depth)] + Edges(t.replies[i], depth + 1)
  {
    assert t.replies[..i + 1][..i] == t.replies[..i];
  }

  /**
   * The edges list the replies in preorder: their children are exactly the
   * nodes of the reply subtrees, in order.
   */
  lemma {:induction false} EdgesArePreorder(parent: ReviewThread, ts: seq<ReviewThread>, depth: nat)
    ensures |EdgesAll(parent, ts, depth)| == |NodesAll(ts)|
    ensures forall i :: 0 <= i < |NodesAll(ts)| ==> EdgesAll(parent, ts, depth)[i].child == NodesAll(ts)[i]
    decreases ts, 0
  {
    if |ts| > 0 {
      var last := ts[|ts| - 1];
      EdgesArePreorder(parent, ts[..|ts| - 1], depth);
      EdgesArePreorder(last, last.replies, depth + 1);
    }
  }

  /** Edge `i` hangs below an edge shown earlier, one level further in. */
  predicate BelowEarlier(es: seq<Edge>, i: nat)
    requires i < |es|
  {
    exists j :: 0 <= j < i && es[j].child == es[i].parent && es[j].depth + 1 == es[i].depth
  }

  /** Edge `i` joins a thread to one of its replies, and is either a direct reply of `parent` at `depth` or below an earlier edge. */
  predicate ShapedAt(es: seq<Edge>, i: nat, parent: ReviewThread, depth: nat)
    requires i < |es|
  {
    es[i].child in es[i].parent.replies &&
    ((es[i].parent == parent && es[i].depth == depth) || BelowEarlier(es, i))
  }

  predicate Shaped(es: seq<Edge>, parent: ReviewThread, depth: nat)
  {
    forall i :: 0 <= i < |es| ==> ShapedAt(es, i, parent, depth)
  }

  /** Shifting a run of edges behind `k` others keeps each edge below its (shifted) parent edge. */
  lemma BelowEarlierShift(pre: seq<Edge>, sub: seq<Edge>, i: nat)
    requires i < |sub| && BelowEarlier(sub, i)
    ensures BelowEarlier(pre + sub, |pre| + i)
  {
    var j :| 0 <= j < i && sub[j].child == sub[i].parent && sub[j].depth + 1 == sub[i].depth;
    assert (pre + sub)[|pre| + j] == sub[j];
    assert (pre + sub)[|pre| + i] == sub[i];
  }

  /** Growing a run at the end keeps each of its edges below an earlier one. */
  lemma BelowEarlierPrefix(es: seq<Edge>, more: seq<Edge>, i: nat)
    requires i < |es| && BelowEarlier(es, i)
    ensures BelowEarlier(es + more, i)
  {
    var j :| 0 <= j < i && es[j].child == es[i].parent && es[j].depth + 1 == es[i].depth;
    assert (es + more)[j] == es[j];
  }

  /**
   * Every edge joins a thread to one of its own replies. A direct reply of
   * `parent` is shown at `depth`; any other reply is shown one level below
   * its parent, which appears earlier in the list.
   */
  lemma {:induction false} EdgesShape(parent: ReviewThread, ts: seq<ReviewThread>, depth: nat)
    requires forall x :: x in ts ==> x in parent.replies
    ensures Shaped(EdgesAll(parent, ts, depth), parent, depth)
    decreases ts, 0
  {
    if |ts| > 0 {
      var last := ts[|ts| - 1];
      var init := EdgesAll(parent, ts[..|ts| - 1], depth);
      var sub := EdgesAll(last, last.replies, depth + 1);
      EdgesShape(parent, ts[..|ts| - 1], depth);
      EdgesShape(last, last.replies, depth + 1);
      assert Edges(last, depth + 1) == sub;
      assert EdgesAll(parent, ts, depth) == init + [Edge(parent, last, depth)] + sub;
      ShapedJoin(init, last, sub, parent, depth);
    }
  }

  /** Shaped edges, a direct reply, then that reply's shaped subtree one level in, are shaped. */
  lemma ShapedJoin(init: seq<Edge>, last: ReviewThread, sub: seq<Edge>, parent: ReviewThread, depth: nat)
    requires Shaped(init, parent, depth) && last in parent.replies && Shaped(sub, last, depth + 1)
    ensures Shaped(init + [Edge(parent, last, depth)] + sub, parent, depth)
  {
    var head := init + [Edge(parent, last, depth)];
    var es := head + sub;
    forall i | 0 <= i < |es| ensures ShapedAt(es, i, parent, depth) {
      if i < |init| {
        ShapedJoinInit(init, [Edge(parent, last, depth)] + sub, parent, depth, i);
        assert init + ([Edge(parent, last, depth)] + sub) == es;
      } else if i == |init| {
        assert es[i] == Edge(parent, last, depth);
      } else {
        ShapedJoinSub(head, sub, last, parent, depth, i - |head|);
      }
    }
  }

  lemma ShapedJoinInit(init: seq<Edge>, more: seq<Edge>, parent: ReviewThread, depth: nat, i: nat)
    requires i < |init| && ShapedAt(init, i, parent, depth)
    ensures ShapedAt(init + more, i, parent, depth)
  {
    assert (init + more)[i] == init[i];
    if !(init[i].parent == parent && init[i].depth == depth) {
      BelowEarlierPrefix(init, more, i);
    }
  }

  lemma ShapedJoinSub(head: seq<Edge>, sub: seq<Edge>, last: ReviewThread, parent: ReviewThread, depth: nat, k: nat)
    requires |head| > 0 && head[|head| - 1] == Edge(parent, last, depth)
    requires k < |sub| && ShapedAt(sub, k, last, depth + 1)
    ensures ShapedAt(head + sub, |head| + k, parent, depth)
  {
    var es := head + sub;
    var i := |head| + k;
    assert es[i] == sub[k];
    if sub[k].parent == last && sub[k].depth == depth + 1 {
      assert es[|head| - 1] == head[|head| - 1];
      assert es[|head| - 1].child == es[i].parent && es[|head| - 1].depth + 1 == es[i].depth;
    } else {
      BelowEarlierShift(head, sub, k);
    }
  }

  /**
   * What the reply nodes are: one per reply below `t`, in preorder, each a
   * Reply node keyed by its comment id, carrying `rootKey`, the comment
   * itself and its parent's resolution state, at `depth` for direct replies
   * and one level below the parent otherwise.
   */
  lemma ReplyRowsSpec(t: ReviewThread, depth: nat, rootKey: string)
    ensures var r := ReplyRows(t, depth, rootKey);
      var es := Edges(t, depth);
      |r| == |es| == |NodesAll(t.replies)| &&
      Shaped(es, t, depth) &&
      forall i :: 0 <= i < |r| ==>
        es[i].child == NodesAll(t.replies)[i] &&
        r[i].kind == ReplyNode && r[i].rootKey == Some(rootKey) &&
        r[i].key == ReplyKey(es[i].child.comment) && r[i].comment == ReviewRef(es[i].child.comment) &&
        r[i].isResolved == es[i].parent.isResolved && r[i].depth == es[i].depth
  {
    EdgesArePreorder(t, t.replies, depth);
    EdgesShape(t, t.replies, depth);
  }

  /**
   * When every node of a thread shares its resolution state (as after
   * resolution propagation), every reply node shows the thread's state.
   */
  lemma ReplyRowsUniform(t: ReviewThread, depth: nat, rootKey: string)
    requires forall n :: n in Nodes(t) ==> n.isResolved == t.isResolved
    ensures forall x :: x in ReplyRows(t, depth, rootKey) ==> x.isResolved == t.isResolved
  {
    var es := Edges(t, depth);
    var r := ReplyRows(t, depth, rootKey);
    ReplyRowsSpec(t, depth, rootKey);
    forall i | 0 <= i < |es| ensures r[i].isResolved == t.isResolved {
      EdgeParentInNodes(t, depth, i);
    }
  }

  /** Every edge below `t` starts at a node of `t`. */
  lemma EdgeParentInNodes(t: ReviewThread, depth: nat, i: nat)
    requires i < |Edges(t, depth)|
    ensures Edges(t, depth)[i].parent in Nodes(t)
  {
    var es := Edges(t, depth);
    EdgesArePreorder(t, t.replies, depth);
    EdgesShape(t, t.replies, depth);
    assert ShapedAt(es, i, t, depth);
    assert Nodes(t) == [t] + NodesAll(t.replies);
    if es[i].parent != t {
      var j :| 0 <= j < i && es[j].child == es[i].parent && es[j].depth + 1 == es[i].depth;
      assert Nodes(t)[j + 1] == es[i].parent;
    }
  }

  lemma Assoc(x: seq<ListNode>, a: seq<ListNode>, b: seq<ListNode>, c: seq<ListNode>)
    ensures x + a + b + c == x + (a + b + c)
  {
  }

  /** One turn of the loop in `append_reply_nodes`: reply `i`, then its subtree, extend what came before. */
  lemma ReplyLoopStep(nodes: seq<ListNode>, out: seq<ListNode>, t: ReviewThread, i: nat, depth: nat, rootKey: string)
    requires i < |t.replies|
    requires out == nodes + Rows(EdgesAll(t, t.replies[..i], depth), rootKey)
    ensures out + [ReplyRow(t, t.replies[i], depth, rootKey)] + ReplyRows(t.replies[i], depth + 1, rootKey) ==
      nodes + Rows(EdgesAll(t, t.replies[..i + 1], depth), rootKey)
  {
    var reply := t.replies[i];
    var pre := EdgesAll(t, t.replies[..i], depth);
    EdgesAllStep(t, i, depth);
    RowsConcat(pre, [Edge(t, reply, depth)], rootKey);
    RowsConcat(pre + [Edge(t, reply, depth)], Edges(reply, depth + 1), rootKey);
    var a, b, c := Rows(pre, rootKey), [ReplyRow(t, reply, depth, rootKey)], Rows(Edges(reply, depth + 1), rootKey);
    assert Rows([Edge(t, reply, depth)], rootKey) == b;
    assert Rows(EdgesAll(t, t.replies[..i + 1], depth), rootKey) == a + b + c;
    assert ReplyRows(reply, depth + 1, rootKey) == c;
    Assoc(nodes, a, b, c);
  }

  /** `append_reply_nodes`: appends the reply nodes below `t`, in preorder. */
  method AppendReplyNodes(nodes: seq<ListNode>, t: ReviewThread, depth: nat, rootKey: string)
    returns (out: seq<ListNode>)
    ensures out == nodes + ReplyRows(t, depth, rootKey)
    decreases t
  {
    out := nodes;
    var i := 0;
    while i < |t.replies|
      invariant 0 <= i <= |t.replies|
      invariant out == nodes + Rows(EdgesAll(t, t.replies[..i], depth), rootKey)
    {
      var reply := t.replies[i];
      ReplyLoopStep(nodes, out, t, i, depth, rootKey);
      out := out + [ReplyRow(t, reply, depth, rootKey)];
      out := AppendReplyNodes(out, reply, depth + 1, rootKey);
      i := i + 1;
    }
    assert t.replies[..i] == t.replies;
  }

  /**
   * `append_thread_nodes`: records the thread under its key, appends its
   * node with itself as root, and its reply nodes unless it is collapsed.
   */
  method AppendThreadNodes(nodes: seq<ListNode>, threadsByKey: map<string, ReviewThread>,
                           collapsed: set<string>, t: ReviewThread, depth: nat)
    returns (nodes': seq<ListNode>, threadsByKey': map<string, ReviewThread>)
    ensures threadsByKey' == threadsByKey[ThreadKey(t) := t]
    ensures nodes' == nodes + [ThreadRow(t, depth, ThreadKey(t))] +
      (if ThreadKey(t) in collapsed then [] else ReplyRows(t, depth + 1, ThreadKey(t)))
  {
    var key := ThreadKey(t);
    threadsByKey' := threadsByKey[key := t];
    nodes' := nodes + [ThreadRow(t, depth, key)];
    if key !in collapsed {
      nodes' := AppendReplyNodes(nodes', t, depth + 1, key);
    }
  }

  /**
   * The thread node comes first, at the given depth, as its own root; a
   * collapsed thread adds nothing more; otherwise one node per reply
   * follows, each rooted at the thread.
   */
  lemma ThreadRowsSpec(collapsed: set<string>, t: ReviewThread, depth: nat)
    ensures var k := ThreadKey(t);
      var r := [ThreadRow(t, depth, k)] + (if k in collapsed then [] else ReplyRows(t, depth + 1, k));
      r[0].kind == ThreadNode && r[0].key == ThreadKey(t) && r[0].rootKey == Some(ThreadKey(t)) &&
      r[0].depth == depth && r[0].isResolved == t.isResolved && r[0].comment == ReviewRef(t.comment) &&
      (ThreadKey(t) in collapsed ==> |r| == 1) &&
      (ThreadKey(t) !in collapsed ==> |r| == |Nodes(t)|) &&
      forall i :: 1 <= i < |r| ==> r[i].rootKey == Some(ThreadKey(t)) && r[i].depth > depth
  {
    ReplyRowsSpec(t, depth + 1, ThreadKey(t));
    assert |Nodes(t)| == 1 + |NodesAll(t.replies)|;
    EdgesDeeper(t, t.replies, depth + 1);
  }

  /** Every reply is shown at least at the depth of the direct replies. */
  lemma {:induction false} EdgesDeeper(parent: ReviewThread, ts: seq<ReviewThread>, depth: nat)
    ensures forall e :: e in EdgesAll(parent, ts, depth) ==> e.depth >= depth
    decreases ts, 0
  {
    if |ts| > 0 {
      var last := ts[|ts| - 1];
      EdgesDeeper(parent, ts[..|ts| - 1], depth);
      EdgesDeeper(last, last.replies, depth + 1);
    }
  }
}
