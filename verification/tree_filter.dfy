/**
 * Filtering a flattened tree while keeping tree context: a row that matches
 * is kept together with every row on the parent stack at that point. The
 * walk is described once, by how each row is keyed, how deep it sits,
 * whether it goes on the parent stack and whether it counts as a hit; the
 * generic filter, the thread-list filter and the diff-tree filter all keep
 * the rows this description selects.
 */
module TreeFilter {
  import opened Text
  import opened Seqs

  /** How a filter walks the rows: key, depth, whether the row is pushed on the parent stack, whether it is a hit. */
  datatype Walk<!T> = Walk(keyOf: T -> string, depthOf: T -> nat, pushes: T -> bool, hit: T -> bool)

  /** The parent stack popped back to at most `depth` entries. */
  function Cut(stack: seq<string>, depth: nat): (r: seq<string>)
    ensures |r| <= depth && r <= stack
    ensures |stack| <= depth ==> r == stack
  {
    if |stack| > depth then stack[..depth] else stack
  }

  /** The keys a stack holds. */
  function Members(s: seq<string>): (r: set<string>)
    ensures forall k :: k in r <==> k in s
  {
    set i | 0 <= i < |s| :: s[i]
  }

  /** The parent stack once the first `i` rows are walked. */
  function StackAfter<T(!new)>(items: seq<T>, i: nat, w: Walk<T>): seq<string>
    requires i <= |items|
  {
    if i == 0 then []
    else
      var s := Cut(StackAfter(items, i - 1, w), w.depthOf(items[i - 1]));
      if w.pushes(items[i - 1]) then s + [w.keyOf(items[i - 1])] else s
  }

  /** The keys on the parent stack when row `i` is tested. */
  function Parents<T(!new)>(items: seq<T>, i: nat, w: Walk<T>): (r: seq<string>)
    requires i < |items|
    ensures |r| <= w.depthOf(items[i])
  {
    Cut(StackAfter(items, i, w), w.depthOf(items[i]))
  }

  /** The keys marked for inclusion by the first `n` rows: each hit's own key and its parents' keys. */
  function IncludedBy<T(!new)>(items: seq<T>, n: nat, w: Walk<T>): set<string>
    requires n <= |items|
  {
    if n == 0 then {}
    else if w.hit(items[n - 1]) then
      IncludedBy(items, n - 1, w) + {w.keyOf(items[n - 1])} + Members(Parents(items, n - 1, w))
    else IncludedBy(items, n - 1, w)
  }

  /** A key is marked exactly when it is a hit's key or on the parent stack of a hit. */
  lemma {:induction false} IncludedBySpec<T(!new)>(items: seq<T>, n: nat, w: Walk<T>, k: string)
    requires n <= |items|
    ensures k in IncludedBy(items, n, w) <==>
      exists i :: 0 <= i < n && w.hit(items[i]) && (k == w.keyOf(items[i]) || k in Parents(items, i, w))
  {
    if n > 0 {
      IncludedBySpec(items, n - 1, w, k);
    }
  }

  /** Every key on the parent stack is the key of an earlier row that was pushed. */
  lemma {:induction false} StackHoldsEarlierRows<T(!new)>(items: seq<T>, i: nat, w: Walk<T>)
    requires i <= |items|
    ensures forall k :: k in StackAfter(items, i, w) ==>
      exists j :: 0 <= j < i && w.pushes(items[j]) && w.keyOf(items[j]) == k
  {
    if i > 0 {
      StackHoldsEarlierRows(items, i - 1, w);
      var s := Cut(StackAfter(items, i - 1, w), w.depthOf(items[i - 1]));
      assert forall k :: k in s ==> k in StackAfter(items, i - 1, w);
    }
  }

  /** The rows whose key is in `marked`, in their order. */
  function KeepIncluded<T(!new)>(items: seq<T>, keyOf: T -> string, marked: set<string>): (r: seq<T>)
    ensures SubseqOf(r, items)
    ensures forall x :: x in r <==> x in items && keyOf(x) in marked
  {
    if |items| == 0 then []
    else
      var init, last := items[..|items| - 1], items[|items| - 1];
      var kept := KeepIncluded(init, keyOf, marked);
      assert items == init + [last];
      if keyOf(last) in marked then
        SubseqAppendBoth(kept, init, last);
        kept + [last]
      else
        SubseqExtend(kept, init, last);
        kept
  }

  /** The rows a walk keeps: those whose key some hit marked. */
  function Selected<T(!new)>(items: seq<T>, w: Walk<T>): seq<T>
  {
    KeepIncluded(items, w.keyOf, IncludedBy(items, |items|, w))
  }

  /** The query as the filters use it: trimmed and lowercased. */
  function NormalizeQuery(query: string): (q: string)
    ensures |q| == |Trim(query)|
  {
    ToAsciiLower(Trim(query))
  }

  /** The walk of `filter_with_ancestors`: every row is pushed and tested with the normalized query. */
  function GenericWalk<T(!new)>(keyOf: T -> string, depthOf: T -> nat, matches: (T, string) -> bool, q: string): Walk<T>
  {
    Walk(keyOf, depthOf, _ => true, x => matches(x, q))
  }

  /** One step of the walk: pop the stack to the row's depth, mark the row's key and its parents on a hit, push. */
  method VisitRow<T(!new)>(items: seq<T>, i: nat, w: Walk<T>, stack0: seq<string>, marked0: set<string>)
    returns (stack: seq<string>, marked: set<string>)
    requires i < |items| && stack0 == StackAfter(items, i, w) && marked0 == IncludedBy(items, i, w)
    ensures stack == StackAfter(items, i + 1, w) && marked == IncludedBy(items, i + 1, w)
  {
    var item := items[i];
    stack := stack0;
    while |stack| > w.depthOf(item)
      invariant stack <= stack0 && Cut(stack, w.depthOf(item)) == Parents(items, i, w)
      decreases |stack|
    {
      stack := stack[..|stack| - 1];
    }
    marked := marked0;
    if w.hit(item) {
      marked := marked + {w.keyOf(item)};
      var p := 0;
      while p < |stack|
        invariant 0 <= p <= |stack|
        invariant marked == marked0 + {w.keyOf(item)} + Members(stack[..p])
      {
        assert stack[..p + 1] == stack[..p] + [stack[p]];
        marked := marked + {stack[p]};
        p := p + 1;
      }
      assert stack[..p] == stack;
    }
    if w.pushes(item) {
      stack := stack + [w.keyOf(item)];
    }
  }

  /** The final pass: keep, in order, the rows whose key was marked. */
  method KeepMarked<T(!new)>(items: seq<T>, keyOf: T -> string, marked: set<string>) returns (out: seq<T>)
    ensures out == KeepIncluded(items, keyOf, marked)
  {
    out := [];
    var i := 0;
    while i < |items|
      invariant 0 <= i <= |items| && out == KeepIncluded(items[..i], keyOf, marked)
    {
      assert items[..i + 1][..i] == items[..i];
      if keyOf(items[i]) in marked {
        out := out + [items[i]];
      }
      i := i + 1;
    }
    assert items[..i] == items;
  }

  /** Walks every row with `VisitRow`, then keeps the marked ones. */
  method WalkAndKeep<T(!new)>(items: seq<T>, w: Walk<T>) returns (out: seq<T>)
    ensures out == Selected(items, w)
  {
    var stack: seq<string> := [];
    var marked: set<string> := {};
    var i := 0;
    while i < |items|
      invariant 0 <= i <= |items|
      invariant stack == StackAfter(items, i, w) && marked == IncludedBy(items, i, w)
    {
      stack, marked := VisitRow(items, i, w, stack, marked);
      i := i + 1;
    }
    out := KeepMarked(items, w.keyOf, marked);
  }

  /**
   * `filter_with_ancestors`: a blank query keeps every row; otherwise the
   * rows kept are those the generic walk selects with the trimmed,
   * lowercased query.
   */
  method FilterWithAncestors<T(!new)>(items: seq<T>, query: string, keyOf: T -> string, depthOf: T -> nat,
                                matches: (T, string) -> bool) returns (out: seq<T>)
    ensures IsBlank(query) ==> out == items
    ensures !IsBlank(query) ==> out == Selected(items, GenericWalk(keyOf, depthOf, matches, NormalizeQuery(query)))
  {
    var q := NormalizeQuery(query);
    if |q| == 0 {
      return items;
    }
    out := WalkAndKeep(items, GenericWalk(keyOf, depthOf, matches, q));
  }

  /**
   * What the selection means: the result is an order-preserving
   * subsequence; a row is kept exactly when its key is a hit's key or on a
   * hit's parent stack; every hit is kept with the rows on its parent stack;
   * and the parent stack only ever holds keys of earlier pushed rows.
   */
  lemma SelectedSpec<T(!new)>(items: seq<T>, w: Walk<T>)
    ensures SubseqOf(Selected(items, w), items)
    ensures forall x :: x in Selected(items, w) <==>
      (x in items &&
       exists i :: 0 <= i < |items| && w.hit(items[i]) &&
         (w.keyOf(x) == w.keyOf(items[i]) || w.keyOf(x) in Parents(items, i, w)))
    ensures forall i :: 0 <= i < |items| && w.hit(items[i]) ==> items[i] in Selected(items, w)
    ensures forall i, x :: 0 <= i < |items| && w.hit(items[i]) && x in items && w.keyOf(x) in Parents(items, i, w) ==>
      x in Selected(items, w)
  {
    forall x | x in items {
      IncludedBySpec(items, |items|, w, w.keyOf(x));
    }
  }

  /** A row that is no hit and is on no hit's parent stack is dropped. */
  lemma UnmarkedDropped<T(!new)>(items: seq<T>, w: Walk<T>, x: T)
    requires forall i :: 0 <= i < |items| && w.hit(items[i]) ==>
      w.keyOf(x) != w.keyOf(items[i]) && w.keyOf(x) !in Parents(items, i, w)
    ensures x !in Selected(items, w)
  {
    IncludedBySpec(items, |items|, w, w.keyOf(x));
  }
}
