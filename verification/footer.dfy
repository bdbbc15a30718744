/**
 * The footer of key hints: a hint string is cut into tokens at double
 * spaces, each token is read as an optional `[key]` and a description, and
 * the tokens are laid out greedily on as few lines of the screen width as
 * the order allows.
 */
module Footer {
  import opened Wrappers
  import opened Text

  /** One hint: the bracketed key (brackets included; empty when there is none) and its description. */
  datatype HintToken = HintToken(key: string, desc: string)

  /** The double space that separates hint tokens. */
  const Separator: string := "  "

  /** `str::split` on a string pattern: the pieces between the matches found from the left, none overlapping. */
  function SplitOn(s: string, sep: string): (r: seq<string>)
    requires |sep| > 0
    ensures |r| >= 1
    decreases |s|
  {
    if |s| == 0 then [[]]
    else if StartsWith(s, sep) then [[]] + SplitOn(s[|sep|..], sep)
    else
      var rest := SplitOn(s[1..], sep);
      [[s[0]] + rest[0]] + rest[1..]
  }

  /** Splitting on a pattern and joining back with it gives the string back. */
  lemma {:induction false} JoinSplitOn(s: string, sep: string)
    requires |sep| > 0
    ensures Join(SplitOn(s, sep), sep) == s
    decreases |s|
  {
    if |s| > 0 {
      if StartsWith(s, sep) {
        JoinSplitOn(s[|sep|..], sep);
        JoinEmptyHead(SplitOn(s[|sep|..], sep), sep);
        assert s == sep + s[|sep|..];
      } else {
        JoinSplitOn(s[1..], sep);
        JoinConsHead(s[0], SplitOn(s[1..], sep), sep);
        assert s == [s[0]] + s[1..];
      }
    }
  }

  /** An empty first piece puts one separator in front of the joined rest. */
  lemma JoinEmptyHead(rest: seq<string>, sep: string)
    requires |rest| >= 1
    ensures Join([[]] + rest, sep) == sep + Join(rest, sep)
  {
    assert ([[]] + rest)[1..] == rest;
  }

  /** Putting a character in front of the first piece puts it in front of the joined string. */
  lemma JoinConsHead(c: char, rest: seq<string>, sep: string)
    requires |rest| >= 1
    ensures Join([[c] + rest[0]] + rest[1..], sep) == [c] + Join(rest, sep)
  {
    var pieces := [[c] + rest[0]] + rest[1..];
    if |rest| > 1 {
      assert pieces[1..] == rest[1..];
      assert Join(pieces, sep) == [c] + rest[0] + sep + Join(rest[1..], sep);
    }
  }

  /** The pieces trimmed, the empty ones dropped, order kept. */
  function NonEmptyTrimmed(pieces: seq<string>): (r: seq<string>)
    ensures forall k :: 0 <= k < |r| ==> |r[k]| > 0 && !IsWhitespace(r[k][0])
  {
    if |pieces| == 0 then []
    else
      var t := Trim(pieces[0]);
      (if |t| == 0 then [] else [t]) + NonEmptyTrimmed(pieces[1..])
  }

  /** The first position of `c` in `s` (`str::find` with a character). */
  function FindChar(s: string, c: char): (r: Option<nat>)
    ensures r.Some? ==> r.value < |s| && s[r.value] == c && c !in s[..r.value]
    ensures r.None? ==> c !in s
    decreases |s|
  {
    if |s| == 0 then None
    else if s[0] == c then Some(0)
    else
      match FindChar(s[1..], c)
      case None => None
      case Some(i) =>
        assert s[..i + 1] == [s[0]] + s[1..][..i];
        Some(i + 1)
  }

  /**
   * `parse_hint_token`: a trimmed token opening with '[' and holding a ']'
   * splits after its first ']' into the key and the trimmed rest; any
   * other token is all description.
   */
  function ParseHintToken(token: string): HintToken
  {
    ParseTrimmed(Trim(token))
  }

  /** `parse_hint_token` once the token is trimmed. */
  function ParseTrimmed(trimmed: string): HintToken
  {
    if |trimmed| > 0 && trimmed[0] == '[' && FindChar(trimmed, ']').Some? then
      var end := FindChar(trimmed, ']').value;
      HintToken(trimmed[..end + 1], Trim(trimmed[end + 1..]))
    else HintToken([], trimmed)
  }

  /**
   * The key of `t` is `trimmed` up to its first ']', opening with '[', and
   * the description is the trimmed rest.
   */
  predicate KeyedShape(trimmed: string, t: HintToken)
  {
    |t.key| > 0 && t.key[0] == '[' && t.key[|t.key| - 1] == ']' && ']' !in t.key[..|t.key| - 1] &&
    |t.key| <= |trimmed| && trimmed[..|t.key|] == t.key && t.desc == Trim(trimmed[|t.key|..])
  }

  /**
   * A token has a key exactly when, trimmed, it opens with '[' and holds a
   * ']'; the key is then the trimmed token up to its first ']' and the
   * description the trimmed rest; otherwise the description is the whole
   * trimmed token.
   */
  lemma ParseHintTokenSpec(token: string)
    ensures ParseHintToken(token).key != [] <==> |Trim(token)| > 0 && Trim(token)[0] == '[' && ']' in Trim(token)
    ensures ParseHintToken(token).key == [] ==> ParseHintToken(token).desc == Trim(token)
    ensures ParseHintToken(token).key != [] ==> KeyedShape(Trim(token), ParseHintToken(token))
  {
    ParseTrimmedSpec(Trim(token));
  }

  lemma ParseTrimmedSpec(trimmed: string)
    ensures ParseTrimmed(trimmed).key != [] <==> |trimmed| > 0 && trimmed[0] == '[' && ']' in trimmed
    ensures ParseTrimmed(trimmed).key == [] ==> ParseTrimmed(trimmed).desc == trimmed
    ensures ParseTrimmed(trimmed).key != [] ==> KeyedShape(trimmed, ParseTrimmed(trimmed))
  {
    var found := FindChar(trimmed, ']');
    if |trimmed| > 0 && trimmed[0] == '[' && found.Some? {
      ParseKeyed(trimmed, found.value);
    } else {
      assert ParseTrimmed(trimmed) == HintToken([], trimmed);
    }
  }

  /** The token opens with '[' and `end` is its first ']': the key runs up to it. */
  lemma ParseKeyed(trimmed: string, end: nat)
    requires |trimmed| > 0 && trimmed[0] == '[' && FindChar(trimmed, ']') == Some(end)
    ensures ParseTrimmed(trimmed) == HintToken(trimmed[..end + 1], Trim(trimmed[end + 1..]))
    ensures KeyedShape(trimmed, ParseTrimmed(trimmed)) && ']' in trimmed
  {
    var key := trimmed[..end + 1];
    KeyPrefix(trimmed, end, key);
    assert trimmed[end] == ']';
  }

  /** The key cut at the first ']' opens with '[', closes with its only ']', and starts the token. */
  lemma KeyPrefix(trimmed: string, end: nat, key: string)
    requires |trimmed| > 0 && trimmed[0] == '[' && end < |trimmed| && trimmed[end] == ']'
    requires ']' !in trimmed[..end] && key == trimmed[..end + 1]
    ensures key != [] && key[0] == '[' && key[|key| - 1] == ']' && ']' !in key[..|key| - 1]
    ensures |key| <= |trimmed| && trimmed[..|key|] == key && trimmed[|key|..] == trimmed[end + 1..]
  {
    assert key[..end] == trimmed[..end];
  }

  /** `token_display_width`: the key, a space and the description, the space only when both are there. */
  function TokenDisplayWidth(t: HintToken): (w: nat)
    ensures w == 0 <==> t.key == [] && t.desc == []
    ensures |t.key| <= w && |t.desc| <= w && w <= |t.key| + 1 + |t.desc|
    ensures t.key != [] && t.desc != [] ==> w == |t.key| + 1 + |t.desc|
  {
    if |t.key| == 0 then |t.desc| else if |t.desc| == 0 then |t.key| else |t.key| + 1 + |t.desc|
  }

  /** The tokens of a hint string. */
  function HintTokens(hints: string): seq<HintToken>
  {
    if hints == [] then []
    else
      var pieces := NonEmptyTrimmed(SplitOn(hints, Separator));
      seq(|pieces|, i requires 0 <= i < |pieces| => ParseHintToken(pieces[i]))
  }

  /** A token read from a non-blank piece has a positive width. */
  lemma HintTokensWidth(hints: string)
    ensures forall k :: 0 <= k < |HintTokens(hints)| ==> TokenDisplayWidth(HintTokens(hints)[k]) > 0
  {
    if hints != [] {
      var pieces := NonEmptyTrimmed(SplitOn(hints, Separator));
      forall k | 0 <= k < |pieces| ensures TokenDisplayWidth(ParseHintToken(pieces[k])) > 0 {
        ParseHintTokenSpec(pieces[k]);
        if ParseHintToken(pieces[k]).key == [] {
          TrimNonEmpty(pieces[k]);
        }
      }
    }
  }

  /** Trimming a trimmed non-empty string leaves it non-empty. */
  lemma TrimNonEmpty(s: string)
    requires |s| > 0 && !IsWhitespace(s[0])
    ensures |Trim(s)| > 0
  {
    BlankIffAllWhitespace(s);
  }

  /** The width a line of tokens takes: their widths and two columns between neighbours. */
  function LineWidth(line: seq<HintToken>): nat
  {
    if |line| == 0 then 0
    else if |line| == 1 then TokenDisplayWidth(line[0])
    else LineWidth(line[..|line| - 1]) + 2 + TokenDisplayWidth(line[|line| - 1])
  }

  function Flatten(lines: seq<seq<HintToken>>): seq<HintToken>
  {
    if |lines| == 0 then [] else Flatten(lines[..|lines| - 1]) + lines[|lines| - 1]
  }

  lemma FlattenSnoc(lines: seq<seq<HintToken>>, line: seq<HintToken>)
    ensures Flatten(lines + [line]) == Flatten(lines) + line
  {
    assert (lines + [line])[..|lines|] == lines;
  }

  /** A layout of non-empty lines has no more lines than tokens. */
  lemma {:induction false} FlattenLength(lines: seq<seq<HintToken>>)
    requires forall k :: 0 <= k < |lines| ==> |lines[k]| > 0
    ensures |lines| <= |Flatten(lines)|
  {
    if |lines| > 0 {
      FlattenLength(lines[..|lines| - 1]);
    }
  }

  /**
   * A greedy layout: every line holds tokens, a line of several tokens
   * fits the width, and no line could have taken the first token of the
   * next one.
   */
  predicate Wrapped(lines: seq<seq<HintToken>>, width: nat)
  {
    (forall k :: 0 <= k < |lines| ==> |lines[k]| > 0) &&
    (forall k :: 0 <= k < |lines| && |lines[k]| >= 2 ==> LineWidth(lines[k]) <= width) &&
    (forall k :: 0 <= k < |lines| - 1 ==> LineWidth(lines[k]) + 2 + TokenDisplayWidth(lines[k + 1][0]) > width)
  }

  /** `current_width` as the loop keeps it: a lone token's width is capped at the line width. */
  function TrackedWidth(current: seq<HintToken>, width: nat): nat
  {
    if |current| == 1 then Min(LineWidth(current), width) else LineWidth(current)
  }

  /**
   * The state of the layout loop after the first `i` tokens: the closed
   * lines and the open one hold those tokens in order, the closed lines are
   * greedy, the open line holds a token once one was read, fits the width
   * when it holds several, follows on greedily from the last closed line,
   * and `currentWidth` is its tracked width.
   */
  ghost predicate Layout(tokens: seq<HintToken>, i: nat, lines: seq<seq<HintToken>>, current: seq<HintToken>,
                         currentWidth: nat, w: nat)
  {
    i <= |tokens| &&
    Flatten(lines) + current == tokens[..i] &&
    Wrapped(lines, w) &&
    (i > 0 <==> |current| > 0) &&
    (|current| >= 2 ==> LineWidth(current) <= w) &&
    currentWidth == TrackedWidth(current, w) &&
    (|lines| > 0 && |current| > 0 ==> LineWidth(lines[|lines| - 1]) + 2 + TokenDisplayWidth(current[0]) > w)
  }

  /** A token that fits goes on the open line. */
  lemma FitToken(tokens: seq<HintToken>, i: nat, lines: seq<seq<HintToken>>, current: seq<HintToken>,
                 currentWidth: nat, w: nat)
    requires Layout(tokens, i, lines, current, currentWidth, w) && i < |tokens|
    requires currentWidth + (if |current| == 0 then 0 else 2) + TokenDisplayWidth(tokens[i]) <= w
    ensures Layout(tokens, i + 1, lines, current + [tokens[i]],
                   currentWidth + (if |current| == 0 then 0 else 2) + TokenDisplayWidth(tokens[i]), w)
  {
    var token := tokens[i];
    TakeSnoc(tokens, i);
    AppendToken(current, token, w, currentWidth);
    assert (current + [token])[0] == if |current| == 0 then token else current[0];
  }

  /** A token that does not fit closes the open line (if it holds anything) and opens a new one. */
  lemma BreakLine(tokens: seq<HintToken>, i: nat, lines: seq<seq<HintToken>>, current: seq<HintToken>,
                  currentWidth: nat, w: nat)
    requires Layout(tokens, i, lines, current, currentWidth, w) && i < |tokens|
    requires currentWidth + (if |current| == 0 then 0 else 2) + TokenDisplayWidth(tokens[i]) > w
    ensures var lines' := if |current| > 0 then lines + [current] else lines;
      Layout(tokens, i + 1, lines', [tokens[i]], Min(TokenDisplayWidth(tokens[i]), w), w)
  {
    var token := tokens[i];
    TakeSnoc(tokens, i);
    assert LineWidth([token]) == TokenDisplayWidth(token);
    if |current| > 0 {
      CloseLine(lines, current, w);
      FlattenSnoc(lines, current);
      var lines' := lines + [current];
      assert lines'[|lines'| - 1] == current;
    }
  }

  /**
   * `wrap_hint_tokens`: the tokens in order, cut into greedy lines of at
   * most `width` columns (at least one); a token wider than that has a
   * line to itself.
   */
  method WrapHintTokens(hints: string, width: nat) returns (lines: seq<seq<HintToken>>)
    ensures hints == [] ==> lines == []
    ensures Flatten(lines) == HintTokens(hints)
    ensures Wrapped(lines, Max(width, 1))
  {
    if hints == [] {
      return [];
    }
    var w := Max(width, 1);
    var tokens := HintTokens(hints);
    if |tokens| == 0 {
      return [];
    }
    lines := [];
    var current: seq<HintToken> := [];
    var currentWidth := 0;
    StartLayout(tokens, w);
    for i := 0 to |tokens|
      invariant Layout(tokens, i, lines, current, currentWidth, w)
    {
      lines, current, currentWidth := PlaceToken(tokens, i, lines, current, currentWidth, w);
    }
    FinishLayout(tokens, lines, current, currentWidth, w);
    lines := lines + [current];
  }

  /**
   * One pass of the layout loop: the token goes on the open line when the
   * separator and the token still fit in `w` columns; otherwise the open
   * line (if it holds anything) is closed and the token opens the next
   * one, its width capped at `w`.
   */
  method PlaceToken(tokens: seq<HintToken>, i: nat, lines: seq<seq<HintToken>>, current: seq<HintToken>,
                    currentWidth: nat, w: nat)
    returns (lines': seq<seq<HintToken>>, current': seq<HintToken>, currentWidth': nat)
    requires Layout(tokens, i, lines, current, currentWidth, w) && i < |tokens|
    ensures Layout(tokens, i + 1, lines', current', currentWidth', w)
  {
    var token := tokens[i];
    var tokenWidth := TokenDisplayWidth(token);
    var separatorWidth := if |current| == 0 then 0 else 2;
    var projectedWidth := currentWidth + separatorWidth + tokenWidth;
    if projectedWidth <= w {
      FitToken(tokens, i, lines, current, currentWidth, w);
      return lines, current + [token], projectedWidth;
    }
    BreakLine(tokens, i, lines, current, currentWidth, w);
    lines' := if |current| > 0 then lines + [current] else lines;
    current' := [token];
    currentWidth' := Min(tokenWidth, w);
  }

  /** Before the first token there are no lines and the open line is empty. */
  lemma StartLayout(tokens: seq<HintToken>, w: nat)
    ensures Layout(tokens, 0, [], [], 0, w)
  {
    assert tokens[..0] == [];
  }

  /** After the last token the open line is closed, and the layout holds every token. */
  lemma FinishLayout(tokens: seq<HintToken>, lines: seq<seq<HintToken>>, current: seq<HintToken>,
                     currentWidth: nat, w: nat)
    requires |tokens| > 0 && Layout(tokens, |tokens|, lines, current, currentWidth, w)
    ensures Flatten(lines + [current]) == tokens && Wrapped(lines + [current], w)
  {
    assert tokens[..|tokens|] == tokens;
    FlattenSnoc(lines, current);
    CloseLine(lines, current, w);
  }

  /** A token that fits on the current line: the line's width grows by the separator and the token. */
  lemma AppendToken(current: seq<HintToken>, token: HintToken, w: nat, currentWidth: nat)
    requires currentWidth == TrackedWidth(current, w)
    requires |current| >= 2 ==> LineWidth(current) <= w
    requires currentWidth + (if |current| == 0 then 0 else 2) + TokenDisplayWidth(token) <= w
    ensures var projected := currentWidth + (if |current| == 0 then 0 else 2) + TokenDisplayWidth(token);
      LineWidth(current + [token]) == projected && TrackedWidth(current + [token], w) == projected
  {
    assert (current + [token])[..|current|] == current;
    if |current| == 1 {
      assert (current + [token])[0] == current[0];
    }
  }

  /** Closing a line that holds tokens keeps the layout greedy. */
  lemma CloseLine(lines: seq<seq<HintToken>>, current: seq<HintToken>, w: nat)
    requires Wrapped(lines, w)
    requires |current| > 0 && (|current| >= 2 ==> LineWidth(current) <= w)
    requires |lines| > 0 ==> LineWidth(lines[|lines| - 1]) + 2 + TokenDisplayWidth(current[0]) > w
    ensures Wrapped(lines + [current], w)
  {
    var next := lines + [current];
    forall k | 0 <= k < |next|
      ensures next[k] == if k < |lines| then lines[k] else current
    {
    }
    forall k | 0 <= k < |next| - 1
      ensures LineWidth(next[k]) + 2 + TokenDisplayWidth(next[k + 1][0]) > w
    {
      if k == |lines| - 1 {
        assert next[k + 1] == current;
      }
    }
  }

  /**
   * `required_height`: as many rows as the hints take at the screen width
   * (at least one column), and one row when there are none; the count is
   * cast to `u16`.
   */
  method RequiredHeight(screenWidth: nat, hints: string) returns (height: nat)
    ensures height < 0x1_0000
    ensures |HintTokens(hints)| == 0 ==> height == 1
    ensures |HintTokens(hints)| < 0x1_0000 ==> 1 <= height <= Max(|HintTokens(hints)|, 1)
    ensures exists lines :: Flatten(lines) == HintTokens(hints) && Wrapped(lines, Max(screenWidth, 1)) &&
                            height == Max(|lines|, 1) % 0x1_0000
  {
    var lines := WrapHintTokens(hints, Max(screenWidth, 1));
    assert Max(Max(screenWidth, 1), 1) == Max(screenWidth, 1);
    ghost var count := |HintTokens(hints)|;
    FlattenLength(lines);
    assert |lines| <= count;
    var rows := Max(|lines|, 1);
    // `as u16` keeps the low 16 bits.
    height := if rows < 0x1_0000 then rows else rows % 0x1_0000;
    CastU16(rows);
    assert Flatten(lines) == HintTokens(hints) && Wrapped(lines, Max(screenWidth, 1));
  }

  /**
   * The greedy layout of a token sequence is unique, so the height
   * `required_height` reports is determined by the hints and the width.
   */
  lemma {:induction false} WrappedUnique(a: seq<seq<HintToken>>, b: seq<seq<HintToken>>, w: nat)
    requires Wrapped(a, w) && Wrapped(b, w) && Flatten(a) == Flatten(b)
    ensures a == b
    decreases |a|
  {
    if |a| == 0 || |b| == 0 {
      FlattenLength(a);
      FlattenLength(b);
    } else {
      FirstLineNotShorter(a, b, w);
      FirstLineNotShorter(b, a, w);
      SameFirstLine(a, b);
      WrappedTail(a, w);
      WrappedTail(b, w);
      WrappedUnique(a[1..], b[1..], w);
      assert a == [a[0]] + a[1..];
      assert b == [b[0]] + b[1..];
    }
  }

  /** Two layouts of the same tokens whose first lines are equally long share the first line and the rest. */
  lemma SameFirstLine(a: seq<seq<HintToken>>, b: seq<seq<HintToken>>)
    requires |a| > 0 && |b| > 0 && Flatten(a) == Flatten(b) && |a[0]| == |b[0]|
    ensures a[0] == b[0] && Flatten(a[1..]) == Flatten(b[1..])
  {
    FlattenCons(a);
    FlattenCons(b);
    var t := Flatten(a);
    assert a[0] == t[..|a[0]|] && Flatten(a[1..]) == t[|a[0]|..];
    assert b[0] == t[..|b[0]|] && Flatten(b[1..]) == t[|b[0]|..];
  }

  /** Of two greedy layouts of the same tokens, the first line of one is no shorter than the other's. */
  lemma FirstLineNotShorter(a: seq<seq<HintToken>>, b: seq<seq<HintToken>>, w: nat)
    requires Wrapped(a, w) && Wrapped(b, w) && Flatten(a) == Flatten(b) && |a| > 0 && |b| > 0
    ensures |a[0]| >= |b[0]|
  {
    var t := Flatten(a);
    var m, n := |a[0]|, |b[0]|;
    if m < n {
      FlattenCons(a);
      FlattenCons(b);
      assert b[0] == t[..n];
      assert a[0] == t[..m];
      assert m > 0 && LineWidth(t[..n]) <= w;
      NextTokenFits(t, m, n, w);
      // The rest of `a` holds t[m..], so `a` has a second line, and it starts with t[m].
      SecondLineStart(a, t);
      assert false;
    }
  }

  /** A line of several tokens that fits leaves room, after any shorter prefix, for the next token. */
  lemma NextTokenFits(t: seq<HintToken>, m: nat, n: nat, w: nat)
    requires 1 <= m < n <= |t| && LineWidth(t[..n]) <= w
    ensures LineWidth(t[..m]) + 2 + TokenDisplayWidth(t[m]) <= w
  {
    assert t[..m + 1][..m] == t[..m];
    LineWidthGrows(t, m + 1, n);
  }

  /** When the first line does not hold all the tokens, a second line starts right after it. */
  lemma SecondLineStart(a: seq<seq<HintToken>>, t: seq<HintToken>)
    requires |a| > 0 && Flatten(a) == t && |a[0]| < |t|
    requires forall k :: 0 <= k < |a| ==> |a[k]| > 0
    ensures |a| > 1 && a[1][0] == t[|a[0]|]
  {
    FlattenCons(a);
    if |a| > 1 {
      FlattenCons(a[1..]);
      assert a[1] == a[1..][0];
    }
  }

  /** A longer prefix of several tokens is no narrower. */
  lemma {:induction false} LineWidthGrows(q: seq<HintToken>, i: nat, j: nat)
    requires 1 <= i <= j <= |q|
    ensures LineWidth(q[..i]) <= LineWidth(q[..j])
    decreases j
  {
    if i < j {
      LineWidthGrows(q, i, j - 1);
      assert q[..j][..j - 1] == q[..j - 1];
    }
  }

  lemma {:induction false} FlattenCons(lines: seq<seq<HintToken>>)
    requires |lines| > 0
    ensures Flatten(lines) == lines[0] + Flatten(lines[1..])
    decreases |lines|
  {
    if |lines| > 1 {
      var init := lines[..|lines| - 1];
      FlattenCons(init);
      assert init[1..] == lines[1..][..|lines[1..]| - 1];
      assert lines[1..][|lines[1..]| - 1] == lines[|lines| - 1];
    } else {
      assert lines[1..] == [];
    }
  }

  lemma WrappedTail(lines: seq<seq<HintToken>>, w: nat)
    requires Wrapped(lines, w) && |lines| > 0
    ensures Wrapped(lines[1..], w)
  {
    var tail := lines[1..];
    forall k | 0 <= k < |tail| ensures tail[k] == lines[k + 1] { }
  }

  /** `as u16` changes nothing below 2^16. */
  lemma CastU16(x: nat)
    ensures (if x < 0x1_0000 then x else x % 0x1_0000) == x % 0x1_0000
  {
  }

  lemma TakeSnoc<T>(s: seq<T>, i: nat)
    requires i < |s|
    ensures s[..i + 1] == s[..i] + [s[i]]
  {
  }

  function Min(a: nat, b: nat): nat { if a <= b then a else b }

  function Max(a: nat, b: nat): nat { if a <= b then b else a }
}
