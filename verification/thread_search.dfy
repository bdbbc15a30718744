/**
 * The left-pane search: a node is kept when its author, body or (for a
 * review comment) file path contains the query, ignoring ASCII case, and
 * every node on the parent stack above a kept match is kept with it.
 */
module ThreadSearch {
  import opened Wrappers
  import opened Text
  import opened Seqs
  import opened Domain
  import opened TreeFilter

  /** `value.to_ascii_lowercase().contains(query)`. */
  predicate ContainsIgnoreCase(value: string, query: string)
  {
    Contains(ToAsciiLower(value), query)
  }

  /** Lowering the value first changes nothing: the test already ignores ASCII case. */
  lemma ContainsIgnoreCaseOfLowered(value: string, query: string)
    ensures ContainsIgnoreCase(ToAsciiLower(value), query) <==> ContainsIgnoreCase(value, query)
  {
    ToAsciiLowerIdempotent(value);
  }

  /** A (lowercase) query occurring in the value as written is found. */
  lemma ContainsIgnoreCaseOfContains(value: string, query: string)
    requires Contains(value, query) && ToAsciiLower(query) == query
    ensures ContainsIgnoreCase(value, query)
  {
    var i :| 0 <= i <= |value| && query <= value[i..];
    var lv := ToAsciiLower(value);
    forall k | 0 <= k < |query| ensures query[k] == lv[i..][k] {
      assert query[k] == value[i + k];
      assert ToAsciiLower(query)[k] == LowerChar(query[k]);
    }
    assert query <= lv[i..];
  }

  /** `node_matches_query`: author, body, or the path of a review comment contains the query. */
  predicate NodeMatchesQuery(node: ListNode, query: string)
  {
    ContainsIgnoreCase(Author(node.comment), query) ||
    ContainsIgnoreCase(Body(node.comment), query) ||
    (node.comment.ReviewRef? && ContainsIgnoreCase(node.comment.review.path, query))
  }

  function NodeKey(node: ListNode): string
  {
    node.key
  }

  function NodeDepth(node: ListNode): nat
  {
    node.depth
  }

  /** The walk the thread search performs with the normalized query `q`. */
  function ThreadWalk(q: string): Walk<ListNode>
  {
    GenericWalk(NodeKey, NodeDepth, NodeMatchesQuery, q)
  }

  /** The nodes the search keeps for `query`. */
  function ThreadSearch(nodes: seq<ListNode>, query: string): seq<ListNode>
  {
    if IsBlank(query) then nodes else Selected(nodes, ThreadWalk(NormalizeQuery(query)))
  }

  /**
   * `filter_thread_nodes`. Its loop is the walk of `filter_with_ancestors`
   * with the node key, the node depth and `node_matches_query`, so it is
   * modelled by running that walk.
   */
  method FilterThreadNodes(nodes: seq<ListNode>, query: string) returns (out: seq<ListNode>)
    ensures out == ThreadSearch(nodes, query)
  {
    out := FilterWithAncestors(nodes, query, NodeKey, NodeDepth, NodeMatchesQuery);
  }

  /**
   * What the search keeps: everything for a blank query; otherwise an
   * order-preserving subsequence in which a node appears exactly when some
   * matching node has its key or has it on its parent stack; so every
   * match is kept, its parents are kept, and a node that neither matches
   * nor sits above a match is dropped.
   */
  lemma ThreadSearchSpec(nodes: seq<ListNode>, query: string)
    ensures IsBlank(query) ==> ThreadSearch(nodes, query) == nodes
    ensures SubseqOf(ThreadSearch(nodes, query), nodes)
    ensures !IsBlank(query) ==> forall x :: x in ThreadSearch(nodes, query) <==>
      (x in nodes &&
       exists i :: 0 <= i < |nodes| && NodeMatchesQuery(nodes[i], NormalizeQuery(query)) &&
         (x.key == nodes[i].key || x.key in Parents(nodes, i, ThreadWalk(NormalizeQuery(query)))))
    ensures !IsBlank(query) ==> forall i :: 0 <= i < |nodes| && NodeMatchesQuery(nodes[i], NormalizeQuery(query)) ==>
      nodes[i] in ThreadSearch(nodes, query)
    ensures !IsBlank(query) ==> forall i, x ::
      0 <= i < |nodes| && NodeMatchesQuery(nodes[i], NormalizeQuery(query)) && x in nodes &&
      x.key in Parents(nodes, i, ThreadWalk(NormalizeQuery(query))) ==>
      x in ThreadSearch(nodes, query)
  {
    if IsBlank(query) {
      SubseqRefl(nodes);
    } else {
      var q := NormalizeQuery(query);
      SearchMembers(nodes, q);
      SearchKeepsMatches(nodes, q);
    }
  }

  /** The membership half of the search's specification, for a normalized query `q`. */
  lemma SearchMembers(nodes: seq<ListNode>, q: string)
    ensures SubseqOf(Selected(nodes, ThreadWalk(q)), nodes)
    ensures forall x :: x in Selected(nodes, ThreadWalk(q)) <==>
      (x in nodes &&
       exists i :: 0 <= i < |nodes| && NodeMatchesQuery(nodes[i], q) &&
         (x.key == nodes[i].key || x.key in Parents(nodes, i, ThreadWalk(q))))
  {
    var w := ThreadWalk(q);
    SelectedSpec(nodes, w);
    forall x | x in Selected(nodes, w)
      ensures x in nodes && exists i :: 0 <= i < |nodes| && NodeMatchesQuery(nodes[i], q) && (x.key == nodes[i].key || x.key in Parents(nodes, i, w))
    {
      SelectedHasReason(nodes, q, x);
    }
    forall x, i | x in nodes && 0 <= i < |nodes| && NodeMatchesQuery(nodes[i], q) && (x.key == nodes[i].key || x.key in Parents(nodes, i, w))
      ensures x in Selected(nodes, w)
    {
      ReasonSelects(nodes, q, x, i);
    }
  }

  /** A kept node is a match or on the parent stack of one. */
  lemma SelectedHasReason(nodes: seq<ListNode>, q: string, x: ListNode)
    requires x in Selected(nodes, ThreadWalk(q))
    ensures x in nodes
    ensures exists i :: 0 <= i < |nodes| && NodeMatchesQuery(nodes[i], q) && (x.key == nodes[i].key || x.key in Parents(nodes, i, ThreadWalk(q)))
  {
    var w := ThreadWalk(q);
    SelectedSpec(nodes, w);
    var i :| 0 <= i < |nodes| && w.hit(nodes[i]) &&
      (w.keyOf(x) == w.keyOf(nodes[i]) || w.keyOf(x) in Parents(nodes, i, w));
    assert NodeMatchesQuery(nodes[i], q);
  }

  /** A match, and a node with its key or a key on its parent stack, is kept. */
  lemma ReasonSelects(nodes: seq<ListNode>, q: string, x: ListNode, i: nat)
    requires x in nodes && i < |nodes| && NodeMatchesQuery(nodes[i], q)
    requires x.key == nodes[i].key || x.key in Parents(nodes, i, ThreadWalk(q))
    ensures x in Selected(nodes, ThreadWalk(q))
  {
    var w := ThreadWalk(q);
    SelectedSpec(nodes, w);
    assert w.hit(nodes[i]) && w.keyOf(x) == x.key && w.keyOf(nodes[i]) == nodes[i].key;
  }

  /** Matches and the nodes on their parent stacks are kept, for a normalized query `q`. */
  lemma SearchKeepsMatches(nodes: seq<ListNode>, q: string)
    ensures forall i :: 0 <= i < |nodes| && NodeMatchesQuery(nodes[i], q) ==>
      nodes[i] in Selected(nodes, ThreadWalk(q))
    ensures forall i, x ::
      0 <= i < |nodes| && NodeMatchesQuery(nodes[i], q) && x in nodes && x.key in Parents(nodes, i, ThreadWalk(q)) ==>
      x in Selected(nodes, ThreadWalk(q))
  {
    var w := ThreadWalk(q);
    SelectedSpec(nodes, w);
    forall i | 0 <= i < |nodes| && NodeMatchesQuery(nodes[i], q)
      ensures nodes[i] in Selected(nodes, w)
    {
      assert w.hit(nodes[i]);
    }
    forall i, x | 0 <= i < |nodes| && NodeMatchesQuery(nodes[i], q) && x in nodes && x.key in Parents(nodes, i, w)
      ensures x in Selected(nodes, w)
    {
      assert w.hit(nodes[i]) && w.keyOf(x) == x.key;
    }
  }

  /** A node that does not match and is on no matching node's parent stack is dropped. */
  lemma NonMatchingWithoutMatchBelowDropped(nodes: seq<ListNode>, query: string, x: ListNode)
    requires !IsBlank(query)
    requires forall i :: 0 <= i < |nodes| && NodeMatchesQuery(nodes[i], NormalizeQuery(query)) ==>
      x.key != nodes[i].key && x.key !in Parents(nodes, i, ThreadWalk(NormalizeQuery(query)))
    ensures x !in ThreadSearch(nodes, query)
  {
    UnmarkedDropped(nodes, ThreadWalk(NormalizeQuery(query)), x);
  }
}
