/**
 * Rust's ordering of `String`s (byte-wise, which for UTF-8 is the order of
 * code points, compared lexicographically) and the stable `sort_by` that the
 * client applies with a string key.
 */
module Order {

  /** `a <= b` in `String`'s `Ord`: a prefix comes first, otherwise the first differing character decides. */
  predicate StrLe(a: string, b: string)
    decreases |a|
  {
    |a| == 0 || (|b| > 0 && (a[0] < b[0] || (a[0] == b[0] && StrLe(a[1..], b[1..]))))
  }

  lemma {:induction false} StrLeRefl(a: string)
    ensures StrLe(a, a)
    decreases |a|
  {
    if |a| > 0 {
      StrLeRefl(a[1..]);
    }
  }

  lemma {:induction false} StrLeTotal(a: string, b: string)
    ensures StrLe(a, b) || StrLe(b, a)
    decreases |a|
  {
    if |a| > 0 && |b| > 0 && a[0] == b[0] {
      StrLeTotal(a[1..], b[1..]);
    }
  }

  lemma {:induction false} StrLeAntisym(a: string, b: string)
    requires StrLe(a, b) && StrLe(b, a)
    ensures a == b
    decreases |a|
  {
    if |a| > 0 {
      StrLeAntisym(a[1..], b[1..]);
      assert a == [a[0]] + a[1..] && b == [b[0]] + b[1..];
    }
  }

  lemma {:induction false} StrLeTrans(a: string, b: string, c: string)
    requires StrLe(a, b) && StrLe(b, c)
    ensures StrLe(a, c)
    decreases |a|
  {
    if |a| > 0 && a[0] == b[0] && b[0] == c[0] {
      StrLeTrans(a[1..], b[1..], c[1..]);
    }
  }

  /** The keys never decrease along the sequence. */
  predicate SortedBy<T>(s: seq<T>, key: T -> string)
  {
    forall i, j :: 0 <= i < j < |s| ==> StrLe(key(s[i]), key(s[j]))
  }

  /** `x` placed after every element whose key is not greater than its own. */
  function InsertBy<T>(s: seq<T>, x: T, key: T -> string): (r: seq<T>)
    ensures multiset(r) == multiset(s) + multiset{x}
  {
    if |s| == 0 || StrLe(key(s[|s| - 1]), key(x)) then s + [x]
    else
      assert s == s[..|s| - 1] + [s[|s| - 1]];
      InsertBy(s[..|s| - 1], x, key) + [s[|s| - 1]]
  }

  /** `sort_by` comparing keys: a stable insertion sort. */
  function SortBy<T>(s: seq<T>, key: T -> string): (r: seq<T>)
    ensures multiset(r) == multiset(s)
  {
    if |s| == 0 then []
    else
      assert s == s[..|s| - 1] + [s[|s| - 1]];
      InsertBy(SortBy(s[..|s| - 1], key), s[|s| - 1], key)
  }

  /** Appending an element whose key is not below the last key keeps the order. */
  lemma AppendSorted<T>(s: seq<T>, x: T, key: T -> string)
    requires SortedBy(s, key) && (|s| == 0 || StrLe(key(s[|s| - 1]), key(x)))
    ensures SortedBy(s + [x], key)
  {
    forall i | 0 <= i < |s| ensures StrLe(key(s[i]), key(x)) {
      if i < |s| - 1 {
        StrLeTrans(key(s[i]), key(s[|s| - 1]), key(x));
      }
    }
  }

  /** Every element of `InsertBy(s, x)` is drawn from `s` or is `x`. */
  lemma InsertByBound<T>(s: seq<T>, x: T, key: T -> string, bound: string)
    requires forall i :: 0 <= i < |s| ==> StrLe(key(s[i]), bound)
    requires StrLe(key(x), bound)
    ensures forall i :: 0 <= i < |InsertBy(s, x, key)| ==> StrLe(key(InsertBy(s, x, key)[i]), bound)
  {
    var r := InsertBy(s, x, key);
    forall i | 0 <= i < |r| ensures StrLe(key(r[i]), bound) {
      assert r[i] in multiset(r);
      if r[i] != x {
        assert r[i] in multiset(s);
        var k :| 0 <= k < |s| && s[k] == r[i];
      }
    }
  }

  lemma {:induction false} InsertBySorted<T>(s: seq<T>, x: T, key: T -> string)
    requires SortedBy(s, key)
    ensures SortedBy(InsertBy(s, x, key), key)
  {
    if |s| == 0 || StrLe(key(s[|s| - 1]), key(x)) {
      AppendSorted(s, x, key);
    } else {
      var init, last := s[..|s| - 1], s[|s| - 1];
      InsertBySorted(init, x, key);
      StrLeTotal(key(last), key(x));
      InsertByBound(init, x, key, key(last));
      AppendSorted(InsertBy(init, x, key), last, key);
    }
  }

  lemma {:induction false} SortBySorted<T>(s: seq<T>, key: T -> string)
    ensures SortedBy(SortBy(s, key), key)
  {
    if |s| > 0 {
      SortBySorted(s[..|s| - 1], key);
      InsertBySorted(SortBy(s[..|s| - 1], key), s[|s| - 1], key);
    }
  }

  /** `sort` on strings: `sort_by` with the string itself as key. */
  function SortStrings(s: seq<string>): (r: seq<string>)
    ensures multiset(r) == multiset(s)
  {
    SortBy(s, (x: string) => x)
  }

  /** The strings come out in order, each as often as it went in. */
  lemma SortStringsSpec(s: seq<string>)
    ensures |SortStrings(s)| == |s| && multiset(SortStrings(s)) == multiset(s)
    ensures forall i, j :: 0 <= i < j < |s| ==> StrLe(SortStrings(s)[i], SortStrings(s)[j])
  {
    SortBySorted(s, (x: string) => x);
    assert |multiset(SortStrings(s))| == |multiset(s)|;
  }
}
