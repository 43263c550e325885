/**
 * The java.lang.String operations the request handler relies on, with Java's
 * semantics written out: `startsWith`, `toLowerCase`, `trim`, `length`,
 * `split` and the decimal rendering of an `int`.
 *
 * A Java string is a sequence of UTF-16 code units; here a string is a
 * sequence of Unicode scalar values. Strings produced by `readLine` are
 * well-formed UTF-16, so the two views hold the same characters; every
 * literal and separator used by the handler lies in the Basic Multilingual
 * Plane, so searching, splitting and trimming agree in both views. Only
 * `length()` differs, and `Utf16Length` models it.
 */
module JavaStrings {
  import opened Options
  import opened Sequences

  /** `s.startsWith(prefix)` */
  predicate StartsWith(s: string, prefix: string)
  {
    |prefix| <= |s| && s[..|prefix|] == prefix
  }

  /** Lower-casing of a single character, on the ASCII letters. */
  function LowerAscii(c: char): char
  {
    if 'A' <= c <= 'Z' then (c as int + 32) as char else c
  }

  /** `s.toLowerCase()`, restricted to ASCII letters (see README). */
  function ToLower(s: string): (r: string)
    ensures |r| == |s|
  {
    seq(|s|, i requires 0 <= i < |s| => LowerAscii(s[i]))
  }

  /** The characters `String.trim` removes: every code point up to U+0020. */
  predicate IsTrimmable(c: char)
  {
    c <= ' '
  }

  /**
   * `s.trim()`: what remains once every leading and trailing character up
   * to U+0020 is removed; it neither starts nor ends with one.
   */
  function Trim(s: string): (r: string)
    ensures |r| <= |s|
    ensures r == [] || (!IsTrimmable(r[0]) && !IsTrimmable(r[|r| - 1]))
  {
    DropLastWhile(IsTrimmable, DropWhile(IsTrimmable, s))
  }

  /**
   * `trim` removes only trimmable characters, and only at the ends: its
   * result is a prefix of the text after the leading trimmable run of
   * length `lead`, and only trimmable characters follow it.
   */
  lemma TrimSlice(s: string)
    ensures var r, lead := Trim(s), |s| - |DropWhile(IsTrimmable, s)|;
      && lead + |r| <= |s|
      && r <= s[lead..]
      && (forall i :: 0 <= i < lead ==> IsTrimmable(s[i]))
      && (forall i :: lead + |r| <= i < |s| ==> IsTrimmable(s[i]))
  {
    var left := DropWhile(IsTrimmable, s);
    var lead, r := |s| - |left|, Trim(s);
    assert r == DropLastWhile(IsTrimmable, left);
    assert left == s[lead..] && r == left[..|r|];
    forall i | lead + |r| <= i < |s| ensures IsTrimmable(s[i]) {
      assert s[i] == left[i - lead];
    }
  }

  /** A string that neither starts nor ends with a trimmable character is its own trim. */
  lemma TrimOfTrimmed(s: string)
    requires s == [] || (!IsTrimmable(s[0]) && !IsTrimmable(s[|s| - 1]))
    ensures Trim(s) == s
  {
  }

  /** Leading trimmable characters do not change the result of `trim`. */
  lemma TrimIgnoresLeading(blank: string, s: string)
    requires forall i :: 0 <= i < |blank| ==> IsTrimmable(blank[i])
    ensures Trim(blank + s) == Trim(s)
  {
    DropWhileAfterPrefix(IsTrimmable, blank, s);
  }

  /** The number of UTF-16 code units that encode `c`. */
  function CodeUnits(c: char): nat
  {
    if c as int < 0x1_0000 then 1 else 2
  }

  /** `s.length()`: the number of UTF-16 code units of `s`. */
  function Utf16Length(s: string): (n: nat)
    ensures |s| <= n <= 2 * |s|
    ensures n == |s| <==> forall i :: 0 <= i < |s| ==> s[i] as int < 0x1_0000
  {
    if s == [] then 0
    else
      var n := CodeUnits(s[0]) + Utf16Length(s[1..]);
      assert forall i :: 1 <= i < |s| ==> s[i] == s[1..][i - 1];
      n
  }

  predicate IsDigit(c: char)
  {
    '0' <= c <= '9'
  }

  function DigitChar(d: nat): (c: char)
    requires d < 10
  {
    ('0' as int + d) as char
  }

  /**
   * The decimal rendering of a non-negative `int`, as string concatenation
   * performs it (`Integer.toString`): digits only, no leading zero.
   */
  function DecimalString(n: nat): (r: string)
    ensures |r| >= 1
    ensures forall i :: 0 <= i < |r| ==> IsDigit(r[i])
    ensures r[0] == '0' <==> n == 0
    ensures r[0] == '0' ==> r == "0"
    decreases n
  {
    if n < 10 then [DigitChar(n)] else DecimalString(n / 10) + [DigitChar(n % 10)]
  }

  /** The value of a non-empty string of decimal digits; `None` for anything else. */
  function ParseDecimal(s: string): (r: Option<nat>)
    ensures r.Some? <==> s != [] && forall i :: 0 <= i < |s| ==> IsDigit(s[i])
    decreases |s|
  {
    if s == [] || !IsDigit(s[|s| - 1]) then None
    else
      var d := s[|s| - 1] as int - '0' as int;
      if |s| == 1 then Some(d)
      else match ParseDecimal(s[..|s| - 1])
        case None => None
        case Some(v) => Some(10 * v + d)
  }

  /** Reading back a rendered number gives the number. */
  lemma {:induction false} DecimalRoundTrip(n: nat)
    ensures ParseDecimal(DecimalString(n)) == Some(n)
    decreases n
  {
    if n >= 10 {
      DecimalRoundTrip(n / 10);
      var s := DecimalString(n);
      assert s[..|s| - 1] == DecimalString(n / 10);
    }
  }

  /** The two regular expressions the handler splits on: a literal character and `\s+`. */
  datatype Delimiter = Literal(c: char) | SpaceRun

  /** `\s` in java.util.regex: space, tab, newline, vertical tab, form feed, carriage return. */
  predicate IsSpace(c: char)
  {
    c == ' ' || c == '\t' || c == '\n' || c == '\U{000B}' || c == '\U{000C}' || c == '\r'
  }

  predicate IsDelimiter(d: Delimiter, c: char)
  {
    match d
    case Literal(x) => c == x
    case SpaceRun => IsSpace(c)
  }

  predicate HasDelimiter(s: string, d: Delimiter)
  {
    exists i :: 0 <= i < |s| && IsDelimiter(d, s[i])
  }

  predicate IsEmptyString(s: string)
  {
    s == []
  }

  /** What follows a match of `d` that began just before `s`: `\s+` matches greedily. */
  function AfterMatch(s: string, d: Delimiter): (r: string)
    ensures |r| <= |s|
  {
    if d.SpaceRun? then DropWhile(IsSpace, s) else s
  }

  /** After a match, a string that does not start with a delimiter is kept whole. */
  lemma AfterMatchOfWord(s: string, d: Delimiter)
    requires s == [] || !IsDelimiter(d, s[0])
    ensures AfterMatch(s, d) == s
  {
  }

  /**
   * Every piece of `s` between matches of `d`, empty ones included: what
   * Java's `split` computes before it discards trailing empty strings.
   * The first piece is the longest prefix of `s` free of the delimiter.
   */
  function Pieces(s: string, d: Delimiter): (r: seq<string>)
    ensures |r| >= 1
    ensures forall k, i :: 0 <= k < |r| && 0 <= i < |r[k]| ==> !IsDelimiter(d, r[k][i])
    ensures |r[0]| <= |s| && r[0] == s[..|r[0]|]
    ensures |r[0]| == |s| || IsDelimiter(d, s[|r[0]|])
    decreases |s|
  {
    if s == [] then [""]
    else if IsDelimiter(d, s[0]) then [""] + Pieces(AfterMatch(s[1..], d), d)
    else
      var p := Pieces(s[1..], d);
      [[s[0]] + p[0]] + p[1..]
  }

  /** A leading match yields an empty piece, followed by the pieces after the match. */
  lemma PiecesAtDelimiter(s: string, d: Delimiter)
    requires s != [] && IsDelimiter(d, s[0])
    ensures Pieces(s, d) == [""] + Pieces(AfterMatch(s[1..], d), d)
  {
  }

  /** A leading non-delimiter joins the first piece of the rest. */
  lemma PiecesAtWordChar(s: string, d: Delimiter)
    requires s != [] && !IsDelimiter(d, s[0])
    ensures var p := Pieces(s[1..], d); Pieces(s, d) == [[s[0]] + p[0]] + p[1..]
  {
  }

  /**
   * `s.split(regex)` with Java's default limit of zero: the whole string
   * when the pattern never matches, otherwise the pieces with trailing
   * empty strings removed.
   */
  function Split(s: string, d: Delimiter): (r: seq<string>)
    ensures forall k, i :: 0 <= k < |r| && 0 <= i < |r[k]| ==> !IsDelimiter(d, r[k][i])
    ensures !HasDelimiter(s, d) ==> r == [s]
    ensures HasDelimiter(s, d) ==> r == [] || r[|r| - 1] != ""
  {
    if !HasDelimiter(s, d) then [s] else DropLastWhile(IsEmptyString, Pieces(s, d))
  }

  /** Without a delimiter a string is a single piece. */
  lemma {:induction false} PiecesWithoutDelimiter(s: string, d: Delimiter)
    requires !HasDelimiter(s, d)
    ensures Pieces(s, d) == [s]
    decreases |s|
  {
    if s != [] {
      assert !IsDelimiter(d, s[0]);
      assert !HasDelimiter(s[1..], d) by {
        forall i | 0 <= i < |s[1..]| ensures !IsDelimiter(d, s[1..][i]) {
          assert s[1..][i] == s[i + 1];
        }
      }
      PiecesWithoutDelimiter(s[1..], d);
      assert [s[0]] + s[1..] == s;
    }
  }

  /** `Split` keeps a prefix of the pieces and drops only empty ones. */
  lemma SplitKeepsPieces(s: string, d: Delimiter)
    ensures var r, p := Split(s, d), Pieces(s, d);
      && |r| <= |p| && r == p[..|r|]
      && forall k :: |r| <= k < |p| ==> p[k] == ""
  {
    if !HasDelimiter(s, d) {
      PiecesWithoutDelimiter(s, d);
    }
  }

  /** A piece that is not empty survives the removal of trailing empty strings. */
  lemma SplitKeepsNonEmptyPiece(s: string, d: Delimiter, k: nat)
    requires k < |Pieces(s, d)| && Pieces(s, d)[k] != ""
    ensures k < |Split(s, d)| && Split(s, d)[k] == Pieces(s, d)[k]
  {
    SplitKeepsPieces(s, d);
  }

  /**
   * A delimiter-free word followed by a match of `d` forms one whole piece:
   * the pieces of `w + t` are `w` followed by the pieces after the match.
   */
  lemma PiecesOfWord(w: string, t: string, d: Delimiter)
    requires forall i :: 0 <= i < |w| ==> !IsDelimiter(d, w[i])
    requires t != [] && IsDelimiter(d, t[0])
    ensures Pieces(w + t, d) == [w] + Pieces(AfterMatch(t[1..], d), d)
  {
    var s := w + t;
    assert s[..|w|] == w && s[|w| + 1..] == t[1..];
    PiecesUpToMatch(s, |w|, d);
  }

  /** If `s[n]` is the first delimiter of `s`, the first piece is `s[..n]` and the rest follow the match. */
  lemma {:induction false} PiecesUpToMatch(s: string, n: nat, d: Delimiter)
    requires n < |s| && IsDelimiter(d, s[n])
    requires forall i :: 0 <= i < n ==> !IsDelimiter(d, s[i])
    ensures Pieces(s, d) == [s[..n]] + Pieces(AfterMatch(s[n + 1..], d), d)
    decreases n
  {
    if n == 0 {
      PiecesAtDelimiter(s, d);
    } else {
      assert s[1..][n - 1] == s[n];
      PiecesUpToMatch(s[1..], n - 1, d);
      PiecesUpToMatchStep(s, n, d);
    }
  }

  /** The step of `PiecesUpToMatch` at a leading character other than a delimiter. */
  lemma PiecesUpToMatchStep(s: string, n: nat, d: Delimiter)
    requires 0 < n < |s| && !IsDelimiter(d, s[0])
    requires Pieces(s[1..], d) == [s[1..][..n - 1]] + Pieces(AfterMatch(s[1..][n..], d), d)
    ensures Pieces(s, d) == [s[..n]] + Pieces(AfterMatch(s[n + 1..], d), d)
  {
    var tail := s[1..];
    assert tail[n..] == s[n + 1..];
    PiecesAtWordChar(s, d);
    PrependFirst(s[0], Pieces(tail, d), tail[..n - 1], Pieces(AfterMatch(tail[n..], d), d));
    assert [s[0]] + tail[..n - 1] == s[..n];
  }

  /** A word without delimiters, followed by a delimiter or nothing, is the first piece. */
  lemma FirstPiece(w: string, t: string, d: Delimiter)
    requires forall i :: 0 <= i < |w| ==> !IsDelimiter(d, w[i])
    requires t == [] || IsDelimiter(d, t[0])
    ensures var p := Pieces(w + t, d); |p| >= 1 && p[0] == w
  {
    if t == [] {
      assert w + t == w;
      PiecesWithoutDelimiter(w, d);
    } else {
      PiecesOfWord(w, t, d);
    }
  }

  /** Splitting on a literal character loses nothing: joining the pieces with it restores the string. */
  lemma {:induction false} JoinPieces(s: string, c: char)
    ensures Join(c, Pieces(s, Literal(c))) == s
    decreases |s|
  {
    if s == [] {
    } else if s[0] == c {
      JoinPieces(s[1..], c);
      JoinPiecesAtSeparator(s, c);
    } else {
      JoinPieces(s[1..], c);
      JoinPiecesAtWordChar(s, c);
    }
  }

  /** The step of `JoinPieces` at a leading separator. */
  lemma JoinPiecesAtSeparator(s: string, c: char)
    requires s != [] && s[0] == c
    requires Join(c, Pieces(s[1..], Literal(c))) == s[1..]
    ensures Join(c, Pieces(s, Literal(c))) == s
  {
    var p := Pieces(s[1..], Literal(c));
    PiecesAtDelimiter(s, Literal(c));
    assert AfterMatch(s[1..], Literal(c)) == s[1..];
    assert Pieces(s, Literal(c)) == [""] + p;
    JoinCons(c, "", p);
    assert "" + [c] + s[1..] == s;
  }

  /** The step of `JoinPieces` at a leading character other than the separator. */
  lemma JoinPiecesAtWordChar(s: string, c: char)
    requires s != [] && s[0] != c
    requires Join(c, Pieces(s[1..], Literal(c))) == s[1..]
    ensures Join(c, Pieces(s, Literal(c))) == s
  {
    PiecesAtWordChar(s, Literal(c));
    JoinPrepend(c, s, Pieces(s[1..], Literal(c)));
  }

  /** Splitting on `\s+` loses exactly the whitespace: the pieces hold the non-space characters in order. */
  lemma {:induction false} SpaceFlatten(s: string)
    ensures Flatten(Pieces(s, SpaceRun)) == Remove(IsSpace, s)
    decreases |s|
  {
    if s == [] {
    } else if IsSpace(s[0]) {
      SpaceFlatten(DropWhile(IsSpace, s[1..]));
      SpaceFlattenAtSpace(s);
    } else {
      SpaceFlatten(s[1..]);
      SpaceFlattenAtWordChar(s);
    }
  }

  /** The step of `SpaceFlatten` at a leading whitespace character. */
  lemma SpaceFlattenAtSpace(s: string)
    requires s != [] && IsSpace(s[0])
    requires var t := DropWhile(IsSpace, s[1..]); Flatten(Pieces(t, SpaceRun)) == Remove(IsSpace, t)
    ensures Flatten(Pieces(s, SpaceRun)) == Remove(IsSpace, s)
  {
    var t := DropWhile(IsSpace, s[1..]);
    RemoveDropWhile(IsSpace, s[1..]);
    PiecesAtDelimiter(s, SpaceRun);
    FlattenCons("", Pieces(t, SpaceRun));
    assert Remove(IsSpace, s) == Remove(IsSpace, s[1..]);
  }

  /** The step of `SpaceFlatten` at a leading non-space character. */
  lemma SpaceFlattenAtWordChar(s: string)
    requires s != [] && !IsSpace(s[0])
    requires Flatten(Pieces(s[1..], SpaceRun)) == Remove(IsSpace, s[1..])
    ensures Flatten(Pieces(s, SpaceRun)) == Remove(IsSpace, s)
  {
    var p := Pieces(s[1..], SpaceRun);
    var first, others := [s[0]] + p[0], p[1..];
    PiecesAtWordChar(s, SpaceRun);
    FlattenCons(first, others);
    assert [p[0]] + others == p;
    FlattenCons(p[0], others);
    AppendAssoc([s[0]], p[0], Flatten(others));
  }

  /** No piece strictly between the first and the last is empty. */
  predicate InnerPiecesNonEmpty(p: seq<string>)
  {
    forall k :: 0 < k < |p| - 1 ==> p[k] != ""
  }

  /** A run of whitespace is one match, so no piece strictly between the first and the last is empty. */
  lemma {:induction false} SpaceInnerPieces(s: string)
    ensures InnerPiecesNonEmpty(Pieces(s, SpaceRun))
    decreases |s|
  {
    if s == [] {
    } else if IsSpace(s[0]) {
      SpaceInnerPieces(DropWhile(IsSpace, s[1..]));
      SpaceInnerPiecesAtSpace(s);
    } else {
      SpaceInnerPieces(s[1..]);
      SpaceInnerPiecesAtWordChar(s);
    }
  }

  /** The step of `SpaceInnerPieces` at a leading whitespace character. */
  lemma SpaceInnerPiecesAtSpace(s: string)
    requires s != [] && IsSpace(s[0])
    requires InnerPiecesNonEmpty(Pieces(DropWhile(IsSpace, s[1..]), SpaceRun))
    ensures InnerPiecesNonEmpty(Pieces(s, SpaceRun))
  {
    var t := DropWhile(IsSpace, s[1..]);
    var q := Pieces(t, SpaceRun);
    var p := [""] + q;
    PiecesAtDelimiter(s, SpaceRun);
    assert p[1..] == q;
    forall k | 0 < k < |p| - 1 ensures p[k] != "" {
      assert p[k] == q[k - 1];
      if k == 1 {
        // t starts with a non-space character, so its first piece is not empty
        assert t != [] && !IsSpace(t[0]);
      }
    }
  }

  /** The step of `SpaceInnerPieces` at a leading non-space character. */
  lemma SpaceInnerPiecesAtWordChar(s: string)
    requires s != [] && !IsSpace(s[0])
    requires InnerPiecesNonEmpty(Pieces(s[1..], SpaceRun))
    ensures InnerPiecesNonEmpty(Pieces(s, SpaceRun))
  {
    var r := Pieces(s[1..], SpaceRun);
    var others := r[1..];
    var p := [[s[0]] + r[0]] + others;
    PiecesAtWordChar(s, SpaceRun);
    assert p[1..] == others;
    forall k | 0 < k < |p| - 1 ensures p[k] != "" {
      assert p[k] == others[k - 1] == r[k];
    }
  }

  /**
   * The tokens of `s.split("\\s+")`: no token holds whitespace, together in
   * order they hold every other character of `s`, and only the first token
   * may be empty (when `s` starts with whitespace).
   */
  lemma SpaceSplit(s: string)
    ensures var r := Split(s, SpaceRun);
      && Flatten(r) == Remove(IsSpace, s)
      && forall k :: 0 < k < |r| ==> r[k] != ""
  {
    SpaceSplitKeepsText(s);
    SpaceSplitTokens(s);
  }

  /** The elements of `s.split("\\s+")` hold the non-space characters of `s` in order. */
  lemma SpaceSplitKeepsText(s: string)
    ensures Flatten(Split(s, SpaceRun)) == Remove(IsSpace, s)
  {
    var r, p := Split(s, SpaceRun), Pieces(s, SpaceRun);
    SpaceFlatten(s);
    SplitKeepsPieces(s, SpaceRun);
    FlattenDropsEmptyTail(p, |r|);
  }

  /** Only the first element of `s.split("\\s+")` can be empty. */
  lemma SpaceSplitTokens(s: string)
    ensures var r := Split(s, SpaceRun); forall k :: 0 < k < |r| ==> r[k] != ""
  {
    var r, p := Split(s, SpaceRun), Pieces(s, SpaceRun);
    SpaceInnerPieces(s);
    SplitKeepsPieces(s, SpaceRun);
    forall k | 0 < k < |r| ensures r[k] != "" {
      assert r[k] == p[k];
      if k == |p| - 1 {
        // a last piece that survives the split is non-empty
        assert HasDelimiter(s, SpaceRun) && k == |r| - 1;
      }
    }
  }

  /** Empty strings at the end of a sequence add nothing to its concatenation. */
  lemma {:induction false} FlattenDropsEmptyTail(p: seq<string>, n: nat)
    requires n <= |p|
    requires forall k :: n <= k < |p| ==> p[k] == ""
    ensures Flatten(p[..n]) == Flatten(p)
    decreases |p|
  {
    if n == 0 {
      FlattenOfEmpties(p);
    } else {
      FlattenDropsEmptyTail(p[1..], n - 1);
      assert p[1..][..n - 1] == p[..n][1..];
    }
  }

  lemma {:induction false} FlattenOfEmpties(p: seq<string>)
    requires forall k :: 0 <= k < |p| ==> p[k] == ""
    ensures Flatten(p) == ""
    decreases |p|
  {
    if p != [] {
      FlattenOfEmpties(p[1..]);
    }
  }
}
