/**
 * Order-preserving selection from a sequence: the subsequence relation the
 * thread builder and the search filters keep, with the facts used about it.
 */
module Seqs {

  /**
   * `a` is `b` with some elements left out, the rest kept in order.
   * Matching from the back is enough: if the last elements agree they may
   * be paired, otherwise the last element of `b` is one of those left out.
   */
  predicate SubseqOf<T(==)>(a: seq<T>, b: seq<T>)
    decreases |b|
  {
    |a| == 0 ||
    (|b| > 0 &&
     if a[|a| - 1] == b[|b| - 1] then SubseqOf(a[..|a| - 1], b[..|b| - 1]) else SubseqOf(a, b[..|b| - 1]))
  }

  /** Every element of a subsequence is an element of the whole. */
  lemma {:induction false} SubseqMembers<T>(a: seq<T>, b: seq<T>)
    requires SubseqOf(a, b)
    ensures forall x :: x in a ==> x in b
    decreases |b|
  {
    if |a| > 0 {
      var b' := b[..|b| - 1];
      if a[|a| - 1] == b[|b| - 1] {
        SubseqMembers(a[..|a| - 1], b');
        assert a == a[..|a| - 1] + [a[|a| - 1]];
      } else {
        SubseqMembers(a, b');
      }
    }
  }

  /** Leaving out the last element of a subsequence keeps it one. */
  lemma {:induction false} SubseqDropLast<T>(a: seq<T>, b: seq<T>)
    requires |a| > 0 && SubseqOf(a, b)
    ensures SubseqOf(a[..|a| - 1], b)
    decreases |b|, 0
  {
    var a' := a[..|a| - 1];
    var b' := b[..|b| - 1];
    if a[|a| - 1] == b[|b| - 1] {
      SubseqExtend(a', b', b[|b| - 1]);
      assert b' + [b[|b| - 1]] == b;
    } else {
      SubseqDropLast(a, b');
      SubseqExtend(a', b', b[|b| - 1]);
      assert b' + [b[|b| - 1]] == b;
    }
  }

  /** A subsequence stays one when the whole grows at the end. */
  lemma {:induction false} SubseqExtend<T>(a: seq<T>, b: seq<T>, x: T)
    requires SubseqOf(a, b)
    ensures SubseqOf(a, b + [x])
    decreases |b|, 1
  {
    var b2 := b + [x];
    assert b2[..|b2| - 1] == b;
    if |a| > 0 && a[|a| - 1] == x {
      SubseqDropLast(a, b);
    }
  }

  /** Both growing by the same element keeps the relation. */
  lemma SubseqAppendBoth<T>(a: seq<T>, b: seq<T>, x: T)
    requires SubseqOf(a, b)
    ensures SubseqOf(a + [x], b + [x])
  {
    assert (a + [x])[..|a|] == a;
    assert (b + [x])[..|b|] == b;
  }

  /** A subsequence of a subsequence is a subsequence. */
  lemma {:induction false} SubseqTrans<T>(a: seq<T>, b: seq<T>, c: seq<T>)
    requires SubseqOf(a, b) && SubseqOf(b, c)
    ensures SubseqOf(a, c)
    decreases |c|
  {
    if |a| > 0 {
      var a', b', c' := a[..|a| - 1], b[..|b| - 1], c[..|c| - 1];
      assert c' + [c[|c| - 1]] == c;
      if b[|b| - 1] == c[|c| - 1] {
        if a[|a| - 1] == b[|b| - 1] {
          SubseqTrans(a', b', c');
        } else {
          SubseqTrans(a, b', c');
          SubseqExtend(a, c', c[|c| - 1]);
        }
      } else {
        SubseqTrans(a, b, c');
        SubseqExtend(a, c', c[|c| - 1]);
      }
    }
  }

  /** Every sequence is a subsequence of itself. */
  lemma {:induction false} SubseqRefl<T>(a: seq<T>)
    ensures SubseqOf(a, a)
    decreases |a|
  {
    if |a| > 0 {
      SubseqRefl(a[..|a| - 1]);
    }
  }
  /** No element occurs twice. */
  predicate Distinct<T(==)>(s: seq<T>)
  {
    forall i, j :: 0 <= i < j < |s| ==> s[i] != s[j]
  }

  /** A subsequence of a sequence without repeats has none either. */
  lemma {:induction false} SubseqDistinct<T>(a: seq<T>, b: seq<T>)
    requires SubseqOf(a, b) && Distinct(b)
    ensures Distinct(a)
    decreases |b|
  {
    if |a| > 0 {
      var a', b' := a[..|a| - 1], b[..|b| - 1];
      if a[|a| - 1] == b[|b| - 1] {
        SubseqDistinct(a', b');
        SubseqMembers(a', b');
        assert a == a' + [a[|a| - 1]];
        forall i | 0 <= i < |a'| ensures a'[i] != b[|b| - 1] {
          assert a'[i] in b';
        }
      } else {
        SubseqDistinct(a, b');
      }
    }
  }

  /** A subsequence that misses no element of a sequence without repeats is the whole sequence. */
  lemma {:induction false} SubseqCovering<T>(a: seq<T>, b: seq<T>)
    requires SubseqOf(a, b) && Distinct(b)
    requires forall x :: x in b ==> x in a
    ensures a == b
    decreases |b|
  {
    if |b| > 0 {
      var b', y := b[..|b| - 1], b[|b| - 1];
      assert y in a;
      var a' := a[..|a| - 1];
      assert b == b' + [y];
      if a[|a| - 1] == y {
        assert a == a' + [y];
        forall x | x in b' ensures x in a' {
          var k :| 0 <= k < |b'| && b'[k] == x;
          assert b[k] == x && x in b && x != y;
          assert x in a;
        }
        SubseqCovering(a', b');
      } else {
        SubseqMembers(a, b');
        assert false;
      }
    }
  }
}
