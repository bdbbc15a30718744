/**
 * The two string helpers of the diff loader: validation of a changed-file
 * path reported by the hosting API before it is used as a repository path,
 * and the base64 encoding (section 4 of RFC 4648) of the basic-auth header.
 */
module DiffPath {
  import opened Wrappers
  import opened Text

  // ---------------------------------------------------------------------
  // Changed-path validation
  // ---------------------------------------------------------------------

  /** A component of a relative Unix path, as `Path::components` yields it. */
  datatype Component = CurDir | ParentDir | Normal(segment: string)

  /**
   * The components of the '/'-separated segments that follow the first one:
   * empty segments (repeated or trailing separators) and "." are skipped.
   */
  function TailComponents(segments: seq<string>): (r: seq<Component>)
    ensures forall k :: 0 <= k < |r| ==> r[k] == ParentDir || (r[k].Normal? && r[k].segment != [] && r[k].segment != ".")
  {
    if |segments| == 0 then []
    else
      var s := segments[0];
      var head := if s == [] || s == "." then [] else if s == ".." then [ParentDir] else [Normal(s)];
      head + TailComponents(segments[1..])
  }

  /**
   * `Path::components` of a relative path: a leading "." segment is the one
   * place "." yields a component; elsewhere it is skipped like an empty segment.
   */
  function Components(p: string): seq<Component>
  {
    var segments := Split(p, '/');
    if segments[0] == "." then [CurDir] + TailComponents(segments[1..]) else TailComponents(segments)
  }

  predicate AllNormal(cs: seq<Component>)
  {
    forall k :: 0 <= k < |cs| ==> cs[k].Normal?
  }

  function Segments(cs: seq<Component>): (r: seq<string>)
    requires AllNormal(cs)
    ensures |r| == |cs| && forall k :: 0 <= k < |cs| ==> r[k] == cs[k].segment
  {
    if |cs| == 0 then [] else [cs[0].segment] + Segments(cs[1..])
  }

  /**
   * `normalize_changed_path`: the trimmed path must be non-empty, relative,
   * and made of ordinary segments only; they are re-joined with '/'.
   * The error carries the trimmed path.
   */
  function NormalizeChangedPath(path: string): Result<string, string>
  {
    var p := Trim(path);
    if p == [] then Err(p)
    else if p[0] == '/' then Err(p)
    else
      var cs := Components(p);
      if !AllNormal(cs) then Err(p)
      else
        var parts := Segments(cs);
        if parts == [] then Err(p) else Ok(Join(parts, "/"))
  }

  lemma TailComponentsParent(segments: seq<string>, i: nat)
    requires i < |segments| && segments[i] == ".."
    ensures ParentDir in TailComponents(segments)
  {
    if i > 0 {
      TailComponentsParent(segments[1..], i - 1);
    }
  }

  /** A segment with no separator splits to itself. */
  lemma SplitNoSep(a: string, sep: char)
    requires sep !in a
    ensures Split(a, sep) == [a]
  {
    if |a| > 0 {
      SplitNoSep(a[1..], sep);
      assert [a[0]] + a[1..] == a;
    }
  }

  lemma {:induction false} SplitConcat(a: string, sep: char, b: string)
    requires sep !in a
    ensures Split(a + [sep] + b, sep) == [a] + Split(b, sep)
    decreases |a|
  {
    if |a| == 0 {
      assert a + [sep] + b == [sep] + b;
      assert ([sep] + b)[1..] == b;
    } else {
      assert (a + [sep] + b)[1..] == a[1..] + [sep] + b;
      assert (a + [sep] + b)[0] == a[0];
      SplitConcat(a[1..], sep, b);
      assert [a[0]] + a[1..] == a;
    }
  }

  /** Joining separator-free pieces and splitting again gives the pieces back. */
  lemma {:induction false} SplitJoin(parts: seq<string>, sep: char)
    requires |parts| > 0
    requires forall k :: 0 <= k < |parts| ==> sep !in parts[k]
    ensures Split(Join(parts, [sep]), sep) == parts
  {
    if |parts| == 1 {
      SplitNoSep(parts[0], sep);
    } else {
      SplitJoin(parts[1..], sep);
      SplitConcat(parts[0], sep, Join(parts[1..], [sep]));
    }
  }

  /**
   * A blank, absolute, or "."-led path, or one with a ".." segment, is
   * rejected; an accepted path is non-empty and relative, and each of its
   * '/'-separated pieces is a segment of the path that is not empty, "." or
   * "..". The exact accepted set and value are `NormalizeChangedPathExact`.
   */
  lemma NormalizeChangedPathProperties(path: string)
    ensures var p := Trim(path);
      var r := NormalizeChangedPath(path);
      (p == [] ==> r.Err?) &&
      (p != [] && p[0] == '/' ==> r.Err?) &&
      (Split(p, '/')[0] == "." ==> r.Err?) &&
      ((exists i :: 0 <= i < |Split(p, '/')| && Split(p, '/')[i] == "..") ==> r.Err?) &&
      (r.Ok? ==> (r.value != [] && r.value[0] != '/' &&
        forall k :: 0 <= k < |Split(r.value, '/')| ==>
          var seg := Split(r.value, '/')[k]; seg != [] && seg != "." && seg != ".." && seg in Split(p, '/')))
  {
    var p := Trim(path);
    if p != [] && p[0] != '/' {
      ComponentsReject(p);
      if AllNormal(Components(p)) && Segments(Components(p)) != [] {
        AcceptedShape(p);
      }
    }
  }

  /** The segments `Path::components` keeps as ordinary components: all but the empty ones and ".". */
  function OrdinarySegments(segments: seq<string>): seq<string>
  {
    if |segments| == 0 then []
    else (if segments[0] == [] || segments[0] == "." then [] else [segments[0]]) + OrdinarySegments(segments[1..])
  }

  /**
   * `normalize_changed_path` accepts exactly the trimmed paths that are
   * non-empty, relative, not led by a "." segment and free of ".."
   * segments; it returns their ordinary segments, in order, joined by '/',
   * and otherwise reports the trimmed path.
   */
  lemma NormalizeChangedPathExact(path: string)
    ensures var p := Trim(path);
      var segments := Split(p, '/');
      var r := NormalizeChangedPath(path);
      (r.Ok? <==> p != [] && p[0] != '/' && segments[0] != "." && ".." !in segments) &&
      (r.Ok? ==> r.value == Join(OrdinarySegments(segments), "/")) &&
      (r.Err? ==> r.error == p)
  {
    var p := Trim(path);
    if p != [] && p[0] != '/' {
      var segments := Split(p, '/');
      SplitFirst(p, '/');
      if segments[0] != "." {
        TailComponentsNormal(segments);
        if ".." !in segments {
          TailComponentsSegments(segments);
          assert segments[0] in segments;
          assert OrdinarySegments(segments)[0] == segments[0];
        }
      } else {
        assert Components(p)[0] == CurDir;
      }
    }
  }

  /** A string that does not start with the separator has a non-empty first piece. */
  lemma SplitFirst(s: string, sep: char)
    requires s != [] && s[0] != sep
    ensures Split(s, sep)[0] != []
  {
  }

  /** The tail components are all ordinary exactly when no segment is "..". */
  lemma {:induction false} TailComponentsNormal(segments: seq<string>)
    ensures AllNormal(TailComponents(segments)) <==> ".." !in segments
  {
    if |segments| > 0 {
      var s, rest := segments[0], segments[1..];
      TailComponentsNormal(rest);
      assert ".." in segments <==> s == ".." || ".." in rest by {
        assert segments == [s] + rest;
      }
      var head := if s == [] || s == "." then [] else if s == ".." then [ParentDir] else [Normal(s)];
      var tail := TailComponents(rest);
      assert TailComponents(segments) == head + tail;
      if s == ".." {
        assert (head + tail)[0] == ParentDir;
      } else if AllNormal(tail) {
        assert AllNormal(head + tail);
      } else {
        var k :| 0 <= k < |tail| && !tail[k].Normal?;
        assert (head + tail)[|head| + k] == tail[k];
      }
    }
  }

  /** When the tail components are all ordinary, their segments are the ordinary segments. */
  lemma {:induction false} TailComponentsSegments(segments: seq<string>)
    requires AllNormal(TailComponents(segments))
    ensures Segments(TailComponents(segments)) == OrdinarySegments(segments)
  {
    if |segments| > 0 {
      var s, rest := segments[0], segments[1..];
      var head := if s == [] || s == "." then [] else if s == ".." then [ParentDir] else [Normal(s)];
      var tail := TailComponents(rest);
      assert TailComponents(segments) == head + tail;
      assert AllNormal(head) && AllNormal(tail) by {
        forall k | 0 <= k < |tail| ensures tail[k].Normal? {
          assert (head + tail)[|head| + k] == tail[k];
        }
        forall k | 0 <= k < |head| ensures head[k].Normal? {
          assert (head + tail)[k] == head[k];
        }
      }
      TailComponentsSegments(rest);
      assert Segments(head + tail) == Segments(head) + Segments(tail);
    }
  }

  /** A leading "." segment or any ".." segment gives a component that is not ordinary. */
  lemma ComponentsReject(p: string)
    ensures Split(p, '/')[0] == "." ==> !AllNormal(Components(p))
    ensures (exists i :: 0 <= i < |Split(p, '/')| && Split(p, '/')[i] == "..") ==> !AllNormal(Components(p))
  {
    var segments := Split(p, '/');
    var cs := Components(p);
    if segments[0] == "." {
      assert cs[0] == CurDir;
    }
    if exists i :: 0 <= i < |segments| && segments[i] == ".." {
      var i :| 0 <= i < |segments| && segments[i] == "..";
      if segments[0] == "." {
        TailComponentsParent(segments[1..], i - 1);
      } else {
        TailComponentsParent(segments, i);
      }
      assert ParentDir in cs;
    }
  }

  /** The ordinary segments joined by '/' split back into themselves, each one of the path's segments. */
  lemma AcceptedShape(p: string)
    requires AllNormal(Components(p)) && Segments(Components(p)) != []
    requires forall i :: 0 <= i < |Split(p, '/')| ==> Split(p, '/')[i] != ".."
    ensures var v := Join(Segments(Components(p)), "/");
      v != [] && v[0] != '/' &&
      forall k :: 0 <= k < |Split(v, '/')| ==>
        var seg := Split(v, '/')[k]; seg != [] && seg != "." && seg != ".." && seg in Split(p, '/')
  {
    var segments := Split(p, '/');
    var cs := Components(p);
    var parts := Segments(cs);
    ComponentsReject(p);
    assert cs == TailComponents(segments);
    TailNormalSegments(segments);
    forall k | 0 <= k < |parts|
      ensures parts[k] in segments && parts[k] != [] && parts[k] != "." && parts[k] != ".." && '/' !in parts[k]
    {
      assert cs[k] in cs;
      var j :| 0 <= j < |segments| && segments[j] == parts[k];
      assert '/' !in segments[j];
    }
    SplitJoin(parts, '/');
    JoinStartsWith(parts, "/");
  }

  /** Every ordinary component of the tail is one of the segments. */
  lemma TailNormalSegments(segments: seq<string>)
    ensures forall c :: c in TailComponents(segments) && c.Normal? ==> c.segment in segments
  {
    if |segments| > 0 {
      TailNormalSegments(segments[1..]);
    }
  }

  lemma JoinStartsWith(parts: seq<string>, sep: string)
    requires |parts| > 0 && parts[0] != []
    ensures Join(parts, sep) != [] && Join(parts, sep)[0] == parts[0][0]
  {
  }

  lemma TrimUntouched(s: string)
    requires |s| > 0 && !IsWhitespace(s[0]) && !IsWhitespace(s[|s| - 1])
    ensures Trim(s) == s
  {
    assert TrimStart(s) == s;
  }

  /** A path that starts by climbing to the parent directory, such as "../etc/passwd", is refused. */
  lemma RejectsParentTraversal(rest: string)
    requires rest == [] || !IsWhitespace(rest[|rest| - 1])
    ensures NormalizeChangedPath(".." + "/" + rest).Err?
  {
    var p := ".." + "/" + rest;
    assert p[0] == '.' && p[|p| - 1] == (if rest == [] then '/' else rest[|rest| - 1]);
    TrimUntouched(p);
    assert p == ".." + ['/'] + rest;
    SplitConcat("..", '/', rest);
    assert Split(p, '/')[0] == "..";
    NormalizeChangedPathProperties(p);
  }

  /** `normalize_path_for_lookup`: every backslash becomes a forward slash. */
  function NormalizePathForLookup(path: string): (r: string)
    ensures |r| == |path| && '\\' !in r
    ensures forall i :: 0 <= i < |path| ==> r[i] == (if path[i] == '\\' then '/' else path[i])
  {
    seq(|path|, i requires 0 <= i < |path| => if path[i] == '\\' then '/' else path[i])
  }

  // ---------------------------------------------------------------------
  // Base64 (section 4 of RFC 4648)
  // ---------------------------------------------------------------------

  /** `n` consecutive characters starting at `first`. */
  function CharRange(first: char, n: nat): (r: string)
    requires first as int + n <= 0x80
    ensures |r| == n && forall i :: 0 <= i < n ==> r[i] as int == first as int + i
  {
    seq(n, i requires 0 <= i < n => (first as int + i) as char)
  }

  /** The 64-character table of the encoder: A-Z, a-z, 0-9, '+', '/'. */
  const Table: string := CharRange('A', 26) + CharRange('a', 26) + CharRange('0', 10) + "+/"

  /** The value of an alphabet character (its index in `Table`). */
  function AlphabetValue(c: char): nat
  {
    if 'A' <= c <= 'Z' then c as int - 'A' as int
    else if 'a' <= c <= 'z' then c as int - 'a' as int + 26
    else if '0' <= c <= '9' then c as int - '0' as int + 52
    else if c == '+' then 62
    else 63
  }

  /** A byte (`u8`). */
  newtype u8 = x: int | 0 <= x < 256

  /**
   * The 24-bit number of a group, `(a << 16) | (b << 8) | c` in `diff.rs`;
   * the three bytes occupy disjoint bits, so the `|` is a sum.
   */
  function Pack(a: u8, b: u8, c: u8): (n: nat)
    ensures n < 0x100_0000
  {
    a as nat * 0x1_0000 + b as nat * 0x100 + c as nat
  }

  /** `(n >> shift) & 0x3f` for the shifts 18, 12, 6 and 0. */
  function Sextet(n: nat, shift: nat): (v: nat)
    requires shift in {0, 6, 12, 18}
    ensures v < 64
  {
    (n / ShiftDivisor(shift)) % 64
  }

  /** `2^shift`, the divisor a right shift by `shift` bits stands for. */
  function ShiftDivisor(shift: nat): (d: nat)
    requires shift in {0, 6, 12, 18}
    ensures d >= 1
  {
    if shift == 18 then 0x4_0000 else if shift == 12 then 0x1000 else if shift == 6 then 0x40 else 1
  }

  /** One group of up to three bytes as four characters, '=' standing for a missing byte. */
  function EncodeGroup(a: u8, b: Option<u8>, c: Option<u8>): (r: string)
    ensures |r| == 4
  {
    var n := Pack(a, b.UnwrapOr(0), c.UnwrapOr(0));
    [Table[Sextet(n, 18)], Table[Sextet(n, 12)]] +
    [if b.Some? then Table[Sextet(n, 6)] else '='] +
    [if c.Some? then Table[Sextet(n, 0)] else '=']
  }

  function At(input: seq<u8>, i: nat): Option<u8>
  {
    if i < |input| then Some(input[i]) else None
  }

  /** The encoding of a whole byte string, group by group. */
  function Base64(input: seq<u8>): seq<char>
    decreases |input|
  {
    if |input| == 0 then []
    else
      EncodeGroup(input[0], At(input, 1), At(input, 2)) +
      Base64(if |input| >= 3 then input[3..] else [])
  }

  /** The encoded length is four characters per started group of three bytes. */
  lemma {:induction false} Base64Length(input: seq<u8>)
    ensures |Base64(input)| == 4 * ((|input| + 2) / 3)
    decreases |input|
  {
    if |input| > 0 {
      var rest := if |input| >= 3 then input[3..] else [];
      Base64Length(rest);
      assert |Base64(input)| == 4 + |Base64(rest)|;
      if |input| >= 3 {
        assert (|input| + 2) / 3 == (|rest| + 2) / 3 + 1;
      }
    }
  }

  /** The 6-bit value a character of an encoded group stands for; padding counts as zero. */
  function CharValue(c: char): (v: nat)
    ensures v < 64
  {
    if c == '=' then 0 else AlphabetValue(c) % 64
  }

  /** Decodes one group of four characters back to its one to three bytes. */
  function DecodeGroup(g: seq<char>): seq<u8>
    requires |g| == 4
  {
    var n := CharValue(g[0]) * 0x4_0000 + CharValue(g[1]) * 0x1000 + CharValue(g[2]) * 0x40 + CharValue(g[3]);
    [(n / 0x1_0000) as u8] +
    (if g[2] == '=' then [] else [((n / 0x100) % 0x100) as u8]) +
    (if g[3] == '=' then [] else [(n % 0x100) as u8])
  }

  /** A decoder for padded base64 text, the reference the encoder is checked against. */
  function Decode(text: seq<char>): seq<u8>
    decreases |text|
  {
    if |text| < 4 then [] else DecodeGroup(text[..4]) + Decode(text[4..])
  }

  /** A character of the alphabet decodes to the value it encodes. */
  lemma CharValueTable(v: nat)
    requires v < 64
    ensures CharValue(Table[v]) == v && Table[v] != '='
  {
  }

  /** The values the four characters of an encoded group stand for. */
  lemma EncodedValues(a: u8, b: Option<u8>, c: Option<u8>, n: nat)
    requires n == Pack(a, b.UnwrapOr(0), c.UnwrapOr(0))
    ensures var g := EncodeGroup(a, b, c);
      CharValue(g[0]) == Sextet(n, 18) && CharValue(g[1]) == Sextet(n, 12) &&
      CharValue(g[2]) == (if b.Some? then Sextet(n, 6) else 0) &&
      CharValue(g[3]) == (if c.Some? then Sextet(n, 0) else 0) &&
      (g[2] == '=' <==> b.None?) && (g[3] == '=' <==> c.None?)
  {
    var s0, s1, s2, s3 := Sextet(n, 18), Sextet(n, 12), Sextet(n, 6), Sextet(n, 0);
    CharValueTable(s0);
    CharValueTable(s1);
    CharValueTable(s2);
    CharValueTable(s3);
    var g := EncodeGroup(a, b, c);
    assert g == [Table[s0], Table[s1]] + [if b.Some? then Table[s2] else '='] +
      [if c.Some? then Table[s3] else '='];
  }

  /** The four sextets of a 24-bit number put back together give the number. */
  lemma SextetsRecombine(n: nat)
    requires n < 0x100_0000
    ensures Sextet(n, 18) * 0x4_0000 + Sextet(n, 12) * 0x1000 + Sextet(n, 6) * 0x40 + Sextet(n, 0) == n
  {
    var q1 := n / 0x40;
    var q2 := q1 / 0x40;
    var q3 := q2 / 0x40;
    assert n == q1 * 0x40 + n % 0x40;
    assert q1 == q2 * 0x40 + q1 % 0x40;
    assert q2 == q3 * 0x40 + q2 % 0x40;
    DivTwice(n);
    DivAgain(n);
    assert q3 < 0x40;
  }

  lemma DivTwice(m: nat)
    ensures (m / 0x40) / 0x40 == m / 0x1000
  {
    var k, r := m / 0x1000, m % 0x1000;
    assert m == k * 0x1000 + r;
    assert m / 0x40 == k * 0x40 + r / 0x40;
  }

  lemma DivAgain(m: nat)
    ensures (m / 0x1000) / 0x40 == m / 0x4_0000
  {
    var k, r := m / 0x4_0000, m % 0x4_0000;
    assert m == k * 0x4_0000 + r;
    assert m / 0x1000 == k * 0x40 + r / 0x1000;
  }

  /** The three bytes can be read back out of their 24-bit number. */
  lemma UnpackBytes(a: u8, b: u8, c: u8)
    ensures var n := Pack(a, b, c);
      n / 0x1_0000 == a as nat && (n / 0x100) % 0x100 == b as nat && n % 0x100 == c as nat
  {
    var n := Pack(a, b, c);
    var low := b as nat * 0x100 + c as nat;
    assert n == a as nat * 0x1_0000 + low && low < 0x1_0000;
    assert n / 0x100 == a as nat * 0x100 + b as nat;
  }

  /** A missing byte is zero in the number, so the sextets under it are zero too. */
  lemma PaddedSextetsZero(a: u8, b: u8)
    ensures Sextet(Pack(a, b, 0), 0) == 0
    ensures Sextet(Pack(a, 0, 0), 6) == 0 && Sextet(Pack(a, 0, 0), 0) == 0
  {
    assert Pack(a, b, 0) == (a as nat * 0x100 + b as nat) * 0x100;
    assert Pack(a, 0, 0) == (a as nat * 0x10) * 0x1000;
    assert Pack(a, 0, 0) / 0x40 == (a as nat * 0x10) * 0x40;
  }

  /** The values of an encoded group's four characters recombine into the group's number. */
  lemma EncodedSum(a: u8, b: Option<u8>, c: Option<u8>)
    requires b.None? ==> c.None?
    ensures var g := EncodeGroup(a, b, c);
      CharValue(g[0]) * 0x4_0000 + CharValue(g[1]) * 0x1000 + CharValue(g[2]) * 0x40 + CharValue(g[3]) ==
      Pack(a, b.UnwrapOr(0), c.UnwrapOr(0))
  {
    var n := Pack(a, b.UnwrapOr(0), c.UnwrapOr(0));
    EncodedValues(a, b, c, n);
    SextetsRecombine(n);
    PaddedSextetsZero(a, b.UnwrapOr(0));
  }

  /** `DecodeGroup` reads the group's number `n` back as one to three bytes. */
  lemma DecodeGroupOf(g: seq<char>, n: nat)
    requires |g| == 4
    requires CharValue(g[0]) * 0x4_0000 + CharValue(g[1]) * 0x1000 + CharValue(g[2]) * 0x40 + CharValue(g[3]) == n
    ensures n < 0x100_0000
    ensures DecodeGroup(g) ==
      [(n / 0x1_0000) as u8] +
      (if g[2] == '=' then [] else [((n / 0x100) % 0x100) as u8]) +
      (if g[3] == '=' then [] else [(n % 0x100) as u8])
  {
  }

  /** Decoding one encoded group gives back its bytes. */
  lemma DecodeEncodeGroup(a: u8, b: Option<u8>, c: Option<u8>)
    requires b.None? ==> c.None?
    ensures DecodeGroup(EncodeGroup(a, b, c)) ==
      [a] + (if b.Some? then [b.value] else []) + (if c.Some? then [c.value] else [])
  {
    var n := Pack(a, b.UnwrapOr(0), c.UnwrapOr(0));
    var g := EncodeGroup(a, b, c);
    EncodedValues(a, b, c, n);
    EncodedSum(a, b, c);
    DecodeGroupOf(g, n);
    UnpackBytes(a, b.UnwrapOr(0), c.UnwrapOr(0));
  }

  /** Decoding a whole group followed by more text decodes the group, then the rest. */
  lemma DecodeConcat(g: seq<char>, rest: seq<char>)
    requires |g| == 4
    ensures Decode(g + rest) == DecodeGroup(g) + Decode(rest)
  {
    assert (g + rest)[..4] == g;
    assert (g + rest)[4..] == rest;
  }

  /** Base64 loses nothing: decoding an encoding gives the bytes back. */
  lemma {:induction false} DecodeEncode(input: seq<u8>)
    ensures Decode(Base64(input)) == input
    decreases |input|
  {
    if |input| > 0 {
      var rest := if |input| >= 3 then input[3..] else [];
      var g := EncodeGroup(input[0], At(input, 1), At(input, 2));
      DecodeEncode(rest);
      assert Base64(input) == g + Base64(rest);
      DecodeConcat(g, Base64(rest));
      DecodeEncodeGroup(input[0], At(input, 1), At(input, 2));
      GroupSplit(input);
    }
  }

  /** A non-empty byte string is its first group's bytes followed by the rest. */
  lemma GroupSplit(input: seq<u8>)
    requires |input| > 0
    ensures input ==
      [input[0]] + (if At(input, 1).Some? then [At(input, 1).value] else []) +
      (if At(input, 2).Some? then [At(input, 2).value] else []) + (if |input| >= 3 then input[3..] else [])
  {
    if |input| >= 3 {
      assert input == [input[0], input[1], input[2]] + input[3..];
    } else if |input| == 2 {
      assert input == [input[0], input[1]];
    } else {
      assert input == [input[0]];
    }
  }

  /** `base64_encode`: three bytes at a time, four characters each, '=' for a missing byte. */
  method Base64Encode(input: seq<u8>) returns (output: seq<char>)
    ensures output == Base64(input)
    ensures |output| == 4 * ((|input| + 2) / 3)
    ensures Decode(output) == input
  {
    output := [];
    var index := 0;
    ghost var todo := input;
    while index < |input|
      invariant todo == if index < |input| then input[index..] else []
      invariant output + Base64(todo) == Base64(input)
      decreases |input| - index
    {
      var a := input[index];
      var b := At(input, index + 1);
      var c := At(input, index + 2);
      var n := Pack(a, b.UnwrapOr(0), c.UnwrapOr(0));
      ghost var before := output;
      output := output + [Table[Sextet(n, 18)]];
      output := output + [Table[Sextet(n, 12)]];
      output := output + [if b.Some? then Table[Sextet(n, 6)] else '='];
      output := output + [if c.Some? then Table[Sextet(n, 0)] else '='];
      SuffixStep(input, index);
      GroupStep(todo, a, b, c, output, before);
      index := index + 3;
      todo := if |todo| >= 3 then todo[3..] else [];
    }
    Base64Length(input);
    DecodeEncode(input);
  }

  /** One turn of the encoding loop: the four characters pushed are the encoding of the next group. */
  lemma GroupStep(todo: seq<u8>, a: u8, b: Option<u8>, c: Option<u8>, output: seq<char>, before: seq<char>)
    requires |todo| > 0 && a == todo[0] && b == At(todo, 1) && c == At(todo, 2)
    requires var n := Pack(a, b.UnwrapOr(0), c.UnwrapOr(0));
      output == before + [Table[Sextet(n, 18)]] + [Table[Sextet(n, 12)]] +
        [if b.Some? then Table[Sextet(n, 6)] else '='] + [if c.Some? then Table[Sextet(n, 0)] else '=']
    ensures before + Base64(todo) == output + Base64(if |todo| >= 3 then todo[3..] else [])
  {
    var n := Pack(a, b.UnwrapOr(0), c.UnwrapOr(0));
    var x, y := Table[Sextet(n, 18)], Table[Sextet(n, 12)];
    var z, w := if b.Some? then Table[Sextet(n, 6)] else '=', if c.Some? then Table[Sextet(n, 0)] else '=';
    var g := EncodeGroup(a, b, c);
    assert g == [x, y, z, w];
    PushFour(before, x, y, z, w);
    var r := Base64(if |todo| >= 3 then todo[3..] else []);
    assert Base64(todo) == g + r;
    AppendAssoc(before, g, r);
  }

  lemma PushFour(s: seq<char>, x: char, y: char, z: char, w: char)
    ensures s + [x] + [y] + [z] + [w] == s + [x, y, z, w]
  {
  }

  lemma AppendAssoc(s: seq<char>, t: seq<char>, u: seq<char>)
    ensures s + (t + u) == (s + t) + u
  {
  }

  /** What is left to encode after one more group. */
  lemma SuffixStep(input: seq<u8>, index: nat)
    requires index < |input|
    ensures var todo := input[index..];
      todo[0] == input[index] && At(todo, 1) == At(input, index + 1) && At(todo, 2) == At(input, index + 2) &&
      (if |todo| >= 3 then todo[3..] else []) == if index + 3 < |input| then input[index + 3..] else []
  {
  }
}
