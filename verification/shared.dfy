/**
 * Shared text helpers of the list and preview panes: the one-line preview
 * of a comment body and the compact form of an ISO 8601 timestamp.
 */
module Shared {
  import opened Wrappers
  import opened Text

  /**
   * `&s[..n]` on a string: the prefix that ends at byte `n`, or `None`
   * where byte `n` falls inside a character, which makes Rust panic.
   */
  function BytePrefix(s: string, n: nat): (r: Option<string>)
    decreases |s|
  {
    if n == 0 then Some([])
    else if |s| == 0 || Utf8Width(s[0]) > n then None
    else
      match BytePrefix(s[1..], n - Utf8Width(s[0]))
      case None => None
      case Some(p) => Some([s[0]] + p)
  }

  /**
   * The prefix found is the one that ends at byte `n`, and there is one
   * exactly when some character boundary lies at byte `n`.
   */
  lemma {:induction false} BytePrefixSpec(s: string, n: nat)
    ensures BytePrefix(s, n).Some? ==>
      var p := BytePrefix(s, n).value; |p| <= |s| && p == s[..|p|] && Utf8Len(p) == n
    ensures forall k :: 0 <= k <= |s| && Utf8Len(s[..k]) == n ==> BytePrefix(s, n) == Some(s[..k])
    decreases |s|
  {
    if n > 0 && |s| > 0 {
      var w := Utf8Width(s[0]);
      if w <= n {
        BytePrefixSpec(s[1..], n - w);
        if BytePrefix(s, n).Some? {
          var p := BytePrefix(s[1..], n - w).value;
          assert BytePrefix(s, n).value == [s[0]] + p;
          assert ([s[0]] + p)[1..] == p;
        }
      }
      forall k | 0 <= k <= |s| && Utf8Len(s[..k]) == n ensures BytePrefix(s, n) == Some(s[..k]) {
        assert k > 0;
        assert s[..k][1..] == s[1..][..k - 1];
        assert s[..k] == [s[0]] + s[1..][..k - 1];
      }
    } else if n == 0 {
      forall k | 0 <= k <= |s| && Utf8Len(s[..k]) == n ensures BytePrefix(s, n) == Some(s[..k]) {
        if k > 0 {
          assert s[..k][0] == s[0];
        }
      }
    }
  }

  /** `str::replace` of one character by another. */
  function ReplaceChar(s: string, from: char, to: char): (r: string)
    ensures |r| == |s|
    ensures forall i :: 0 <= i < |s| ==> r[i] == if s[i] == from then to else s[i]
  {
    seq(|s|, i requires 0 <= i < |s| => if s[i] == from then to else s[i])
  }

  /**
   * `short_timestamp` (and `short_date` of the thread preview): the first
   * 16 bytes with 'T' turned into a space when the value is that long, the
   * value itself otherwise. `None` stands for the panic of a slice that
   * would cut a character in two.
   */
  function ShortTimestamp(value: string): (r: Option<string>)
  {
    if Utf8Len(value) >= 16 then
      match BytePrefix(value, 16)
      case None => None
      case Some(p) => Some(ReplaceChar(p, 'T', ' '))
    else Some(value)
  }

  /**
   * On ASCII input (which is what RFC 3339 timestamps are) the short form
   * is the first 16 characters with 'T' replaced, or the whole value when
   * it is shorter; the cut form holds no 'T'.
   */
  lemma ShortTimestampAscii(value: string)
    requires IsAscii(value)
    ensures |value| >= 16 ==> ShortTimestamp(value) == Some(ReplaceChar(value[..16], 'T', ' '))
    ensures |value| < 16 ==> ShortTimestamp(value) == Some(value)
    ensures |value| >= 16 ==> forall i :: 0 <= i < 16 ==> ShortTimestamp(value).value[i] != 'T'
  {
    Utf8LenBounds(value);
    if |value| >= 16 {
      var p := value[..16];
      assert IsAscii(p) by {
        forall i | 0 <= i < 16 ensures p[i] as int < 0x80 {
          assert p[i] == value[i];
        }
      }
      Utf8LenBounds(p);
      BytePrefixSpec(value, 16);
    }
  }

  /**
   * `short_preview`: the text with whitespace runs collapsed and the ends
   * trimmed, then cut to `maxChars`. The length test counts bytes, the cut
   * counts characters; a cut preview ends in "..." when there is room for
   * it. The preview never has more than `maxChars` characters.
   */
  method ShortPreview(text: string, maxChars: nat) returns (preview: string)
    ensures var normalized := CollapseWhitespace(text);
      (Utf8Len(normalized) <= maxChars ==> preview == normalized) &&
      (Utf8Len(normalized) > maxChars && maxChars <= 3 ==> preview == normalized[..Min(maxChars, |normalized|)]) &&
      (Utf8Len(normalized) > maxChars && maxChars > 3 ==> preview == normalized[..Min(maxChars - 3, |normalized|)] + "...")
    ensures |preview| <= maxChars
  {
    var normalized := CollapseWhitespace(text);
    Utf8LenBounds(normalized);
    if Utf8Len(normalized) <= maxChars {
      return normalized;
    }
    if maxChars <= 3 {
      return normalized[..Min(maxChars, |normalized|)];
    }
    var out: string := [];
    var limit := Min(maxChars - 3, |normalized|);
    for i := 0 to limit
      invariant out == normalized[..i]
    {
      out := out + [normalized[i]];
    }
    preview := out + "...";
  }

  function Min(a: nat, b: nat): nat
  {
    if a <= b then a else b
  }
}
