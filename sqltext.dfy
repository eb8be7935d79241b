/**
 * The string scanners of SQLServer
 * (server/src/main/java/com/readytalk/revori/server/SQLServer.java):
 * `tokenize`, `skipSpace`, `parseName` and the string and number literal
 * parsers.  Strings are sequences of UTF-16 code units (`char`).
 */
module SqlText {
  import opened Wire

  /** `Character.isWhitespace`: the separators except no-break spaces, and the ASCII controls. */
  predicate IsWhitespace(c: char)
  {
    ('\t' <= c <= '\r') || ('\U{1C}' <= c <= ' ') || c == '\U{1680}' ||
    ('\U{2000}' <= c <= '\U{2006}') || ('\U{2008}' <= c <= '\U{200A}') ||
    c == '\U{2028}' || c == '\U{2029}' || c == '\U{205F}' || c == '\U{3000}'
  }

  /** `Character.isLetter`, restricted to ASCII. */
  predicate IsLetter(c: char)
  {
    ('a' <= c <= 'z') || ('A' <= c <= 'Z')
  }

  /** `Character.isDigit`, restricted to ASCII. */
  predicate IsDigit(c: char)
  {
    '0' <= c <= '9'
  }

  predicate IsParen(c: char)
  {
    c == '(' || c == ')'
  }

  // ---------------------------------------------------------------------
  // tokenize

  /** What `tokenize` appends for the character at `i`: it, padded with a space on a side where a parenthesis touches a non-blank. */
  function Piece(s: string, i: nat): string
    requires i < |s|
  {
    var paren := IsParen(s[i]);
    (if paren && i > 0 && !IsWhitespace(s[i - 1]) then " " else "") +
    [s[i]] +
    (if paren && i + 1 < |s| && !IsWhitespace(s[i + 1]) then " " else "")
  }

  /** The output of `tokenize` after its first `n` characters. */
  function Pieces(s: string, n: nat): string
    requires n <= |s|
  {
    if n == 0 then [] else Pieces(s, n - 1) + Piece(s, n - 1)
  }

  method Tokenize(s: string) returns (r: string)
    ensures r == Pieces(s, |s|)
  {
    r := [];
    var i := 0;
    while i < |s|
      invariant i <= |s| && r == Pieces(s, i)
    {
      var c := s[i];
      var isParen := c == '(' || c == ')';
      if isParen && i > 0 && !IsWhitespace(s[i - 1]) {
        r := r + [' '];
      }
      r := r + [c];
      if isParen && i + 1 < |s| && !IsWhitespace(s[i + 1]) {
        r := r + [' '];
      }
      i := i + 1;
    }
  }

  /** The characters other than the space. */
  function Unspaced(s: string): string
  {
    if s == [] then [] else Unspaced(s[..|s| - 1]) + (if s[|s| - 1] == ' ' then "" else [s[|s| - 1]])
  }

  lemma {:induction false} UnspacedAppend(a: string, b: string)
    ensures Unspaced(a + b) == Unspaced(a) + Unspaced(b)
    decreases |b|
  {
    if b == [] {
      assert a + b == a;
    } else {
      var c := b[|b| - 1];
      var b' := b[..|b| - 1];
      assert (a + b)[..|a + b| - 1] == a + b';
      UnspacedAppend(a, b');
    }
  }

  /** `tokenize` only adds spaces: every other character stays, in order. */
  lemma {:induction false} TokenizeOnlyAddsSpaces(s: string, n: nat)
    requires n <= |s|
    ensures Unspaced(Pieces(s, n)) == Unspaced(s[..n])
    ensures |Pieces(s, n)| >= n
  {
    if n > 0 {
      TokenizeOnlyAddsSpaces(s, n - 1);
      UnspacedAppend(Pieces(s, n - 1), Piece(s, n - 1));
      PieceUnspaced(s, n - 1);
      PrefixStep(s, n);
      UnspacedAppend(s[..n - 1], [s[n - 1]]);
    }
  }

  /** Each piece is its character, once the spaces are dropped. */
  lemma PieceUnspaced(s: string, i: nat)
    requires i < |s|
    ensures Unspaced(Piece(s, i)) == Unspaced([s[i]])
  {
    var pre := if IsParen(s[i]) && i > 0 && !IsWhitespace(s[i - 1]) then " " else "";
    var post := if IsParen(s[i]) && i + 1 < |s| && !IsWhitespace(s[i + 1]) then " " else "";
    assert Piece(s, i) == pre + [s[i]] + post;
    UnspacedAppend(pre + [s[i]], post);
    UnspacedAppend(pre, [s[i]]);
    assert Unspaced(pre) == [] && Unspaced(post) == [];
  }

  /** A prefix one longer is the shorter one and the next character. */
  lemma PrefixStep(s: string, n: nat)
    requires 0 < n <= |s|
    ensures s[..n] == s[..n - 1] + [s[n - 1]]
  {
  }

  /** Text without parentheses comes out of `tokenize` unchanged. */
  lemma {:induction false} TokenizeWithoutParens(s: string, n: nat)
    requires n <= |s| && forall i :: 0 <= i < |s| ==> !IsParen(s[i])
    ensures Pieces(s, n) == s[..n]
  {
    if n > 0 {
      TokenizeWithoutParens(s, n - 1);
      PrefixStep(s, n);
    }
  }

  /** Every parenthesis `tokenize` emits has white space or the end of the text on both sides. */
  lemma TokenizeSeparatesParens(s: string)
    ensures var r := Pieces(s, |s|);
      forall j :: 0 <= j < |r| && IsParen(r[j]) ==>
        (j == 0 || IsWhitespace(r[j - 1])) && (j + 1 == |r| || IsWhitespace(r[j + 1]))
  {
    Separated(s, |s|);
  }

  lemma {:induction false} Separated(s: string, n: nat)
    requires n <= |s|
    ensures n > 0 ==> LastFrom(s, n, Pieces(s, n))
    ensures Preceded(Pieces(s, n)) && Followed(Pieces(s, n))
  {
    if n > 0 {
      var m := n - 1;
      Separated(s, m);
      var r := Pieces(s, m);
      var c := s[m];
      var pre: string := if IsParen(c) && m > 0 && !IsWhitespace(s[m - 1]) then " " else "";
      var post: string := if IsParen(c) && n < |s| && !IsWhitespace(s[n]) then " " else "";
      assert Pieces(s, n) == r + pre + [c] + post;
      assert IsParen(c) && pre == [] && |r| > 0 ==> IsWhitespace(r[|r| - 1]) by {
        if IsParen(c) && pre == [] && |r| > 0 {
          assert m > 0 && IsWhitespace(s[m - 1]);
        }
      }
      PrecededStep(r, pre, c, post);
      FollowedStep(r, pre, c, post);
      var r' := r + pre + [c] + post;
      assert r'[|r'| - 1] == if post == [] then c else ' ';
    }
  }

  /**
   * The end of `r`, the output for the first `n` characters of `s`: the
   * last character or an added space, and a parenthesis there is not
   * padded only because the text ends or white space follows.
   */
  predicate LastFrom(s: string, n: nat, r: string)
    requires 0 < n <= |s|
  {
    |r| > 0 && (r[|r| - 1] == s[n - 1] || r[|r| - 1] == ' ') &&
    (IsParen(r[|r| - 1]) ==> n == |s| || IsWhitespace(s[n]))
  }

  /** Every parenthesis in `r` starts it or follows white space. */
  predicate Preceded(r: string)
  {
    forall j :: 0 <= j < |r| && IsParen(r[j]) ==> j == 0 || IsWhitespace(r[j - 1])
  }

  /** Every parenthesis in `r` but a last one is followed by white space. */
  predicate Followed(r: string)
  {
    forall j :: 0 <= j < |r| - 1 && IsParen(r[j]) ==> IsWhitespace(r[j + 1])
  }

  lemma PrecededStep(r: string, pre: string, c: char, post: string)
    requires Preceded(r) && (pre == [] || pre == " ") && (post == [] || post == " ")
    requires IsParen(c) && pre == [] && |r| > 0 ==> IsWhitespace(r[|r| - 1])
    ensures Preceded(r + pre + [c] + post)
  {
    var r' := r + pre + [c] + post;
    forall j | 0 <= j < |r'| && IsParen(r'[j])
      ensures j == 0 || IsWhitespace(r'[j - 1])
    {
      if j < |r| {
        assert r'[j] == r[j];
        if j > 0 {
          assert r'[j - 1] == r[j - 1];
        }
      } else if j == |r| + |pre| && pre == [] && j > 0 {
        assert r'[j - 1] == r[|r| - 1];
      }
    }
  }

  lemma FollowedStep(r: string, pre: string, c: char, post: string)
    requires Followed(r) && (pre == [] || pre == " ") && (post == [] || post == " ")
    requires |r| > 0 && IsParen(r[|r| - 1]) ==> pre != [] || IsWhitespace(c)
    ensures Followed(r + pre + [c] + post)
  {
    var r' := r + pre + [c] + post;
    forall j | 0 <= j < |r'| - 1 && IsParen(r'[j])
      ensures IsWhitespace(r'[j + 1])
    {
      if j < |r| - 1 {
        assert r'[j] == r[j] && r'[j + 1] == r[j + 1];
      } else if j == |r| - 1 {
        assert r'[j] == r[|r| - 1];
      }
    }
  }

  // ---------------------------------------------------------------------
  // skipSpace and parseName

  /** How many white-space characters `s` starts with. */
  function LeadingSpace(s: string): (k: nat)
    ensures k <= |s|
    ensures forall i :: 0 <= i < k ==> IsWhitespace(s[i])
    ensures k < |s| ==> !IsWhitespace(s[k])
  {
    if s != [] && IsWhitespace(s[0]) then 1 + LeadingSpace(s[1..]) else 0
  }

  /** `skipSpace`: the text after its leading white space. */
  method SkipSpace(s: string) returns (r: string)
    ensures r == s[LeadingSpace(s)..]
  {
    var i := 0;
    while i < |s|
      invariant i <= |s| && forall j :: 0 <= j < i ==> IsWhitespace(s[j])
    {
      if IsWhitespace(s[i]) {
        i := i + 1;
      } else {
        break;
      }
    }
    r := if i == 0 then s else s[i..];
  }

  predicate IsNameStart(c: char)
  {
    c == '_' || IsLetter(c)
  }

  predicate IsNamePart(c: char)
  {
    c == '_' || IsLetter(c) || IsDigit(c)
  }

  /**
   * `parseName`: the longest prefix that starts with a letter or `_` and
   * goes on with letters, digits and `_`; `null` when there is none.
   */
  method ParseName(s: string) returns (r: Option<string>)
    ensures r.None? <==> s == [] || !IsNameStart(s[0])
    ensures r.Some? ==>
      var n := |r.value|;
      1 <= n <= |s| && r.value == s[..n] && IsNameStart(s[0]) &&
      (forall i :: 1 <= i < n ==> IsNamePart(s[i])) &&
      (n == |s| || !IsNamePart(s[n]))
  {
    if |s| > 0 {
      var c := s[0];
      if c == '_' || IsLetter(c) {
        var i := 1;
        while i < |s|
          invariant 1 <= i <= |s| && forall j :: 1 <= j < i ==> IsNamePart(s[j])
        {
          c := s[i];
          if c == '_' || IsLetter(c) || IsDigit(c) {
            i := i + 1;
          } else {
            break;
          }
        }
        return Some(s[..i]);
      }
    }
    return None;
  }

  // ---------------------------------------------------------------------
  // Backslash escapes, shared by string literals and `COPY` rows.

  /**
   * The escape scanner: whether the last character was an unpaired
   * backslash, the text of the current piece, and the pieces a delimiter
   * has closed.
   */
  datatype Scan = Scan(sawEscape: bool, current: string, fields: seq<string>)

  /**
   * One character: a doubled backslash is one backslash, a backslash
   * before the delimiter is the delimiter, a backslash before anything
   * else stays, and an unescaped delimiter closes the current piece.
   */
  function Step(st: Scan, c: char, delimiter: char): Scan
    requires delimiter != '\\'
  {
    if c == '\\' then
      if st.sawEscape then Scan(false, st.current + [c], st.fields)
      else Scan(true, st.current, st.fields)
    else if c == delimiter then
      if st.sawEscape then Scan(false, st.current + [c], st.fields)
      else Scan(false, [], st.fields + [st.current])
    else
      Scan(false, if st.sawEscape then st.current + ['\\', c] else st.current + [c], st.fields)
  }

  /** The scanner after every character of `s`. */
  function Run(st: Scan, s: string, delimiter: char): (r: Scan)
    requires delimiter != '\\'
    ensures |st.fields| <= |r.fields| <= |st.fields| + |s|
  {
    if s == [] then st else Step(Run(st, s[..|s| - 1], delimiter), s[|s| - 1], delimiter)
  }

  lemma {:induction false} RunAppend(st: Scan, a: string, b: string, delimiter: char)
    requires delimiter != '\\'
    ensures Run(st, a + b, delimiter) == Run(Run(st, a, delimiter), b, delimiter)
    decreases |b|
  {
    if b == [] {
      assert a + b == a;
    } else {
      assert (a + b)[..|a + b| - 1] == a + b[..|b| - 1];
      RunAppend(st, a, b[..|b| - 1], delimiter);
    }
  }

  /** Scanning never takes back a closed piece. */
  lemma {:induction false} RunExtends(st: Scan, s: string, delimiter: char)
    requires delimiter != '\\'
    ensures st.fields <= Run(st, s, delimiter).fields
    decreases |s|
  {
    if s != [] {
      RunExtends(st, s[..|s| - 1], delimiter);
    }
  }

  /** The escaped form of one character. */
  function EscapeChar(c: char, delimiter: char): string
  {
    if c == '\\' || c == delimiter then ['\\', c] else [c]
  }

  /** `v` with every backslash and delimiter escaped. */
  function Escape(v: string, delimiter: char): string
  {
    if v == [] then [] else EscapeChar(v[0], delimiter) + Escape(v[1..], delimiter)
  }

  /** Scanning escaped text adds exactly that text to the current piece. */
  lemma {:induction false} RunEscape(current: string, fields: seq<string>, v: string, delimiter: char)
    requires delimiter != '\\'
    ensures Run(Scan(false, current, fields), Escape(v, delimiter), delimiter) ==
      Scan(false, current + v, fields)
    decreases |v|
  {
    var st := Scan(false, current, fields);
    if v == [] {
      assert current + v == current;
    } else {
      var e := EscapeChar(v[0], delimiter);
      RunAppend(st, e, Escape(v[1..], delimiter), delimiter);
      if |e| == 2 {
        assert e[..1] == ['\\'];
        assert Run(st, e[..1], delimiter) == Scan(true, current, fields);
      }
      assert Run(st, e, delimiter) == Scan(false, current + [v[0]], fields);
      RunEscape(current + [v[0]], fields, v[1..], delimiter);
      assert current + [v[0]] + v[1..] == current + v;
    }
  }

  /** A trailing unpaired backslash is dropped: the piece ends without it. */
  lemma TrailingBackslash(v: string, delimiter: char)
    requires delimiter != '\\'
    ensures Run(Scan(false, [], []), Escape(v, delimiter) + "\\", delimiter) == Scan(true, v, [])
  {
    RunAppend(Scan(false, [], []), Escape(v, delimiter), "\\", delimiter);
    RunEscape([], [], v, delimiter);
    assert [] + v == v;
  }

  // ---------------------------------------------------------------------
  // String and number literals

  /** The literal the quote scanner in state `st` finds in `s`, and the text after its closing quote. */
  function LiteralFrom(st: Scan, s: string): Option<(string, string)>
    decreases |s|
  {
    if s == [] then None
    else if s[0] == '\'' && !st.sawEscape then Some((st.current, s[1..]))
    else LiteralFrom(Step(st, s[0], '\''), s[1..])
  }

  /** What `stringLiteral` parses from `input`: after white space, a quote and at least one more character. */
  function StringLiteralOf(input: string): Option<(string, string)>
  {
    var t := input[LeadingSpace(input)..];
    if |t| > 1 && t[0] == '\'' then LiteralFrom(Scan(false, [], []), t[1..]) else None
  }

  /** `stringLiteral().parse`: the value of a quoted literal and the text after it. */
  method StringLiteral(input: string) returns (r: Option<(string, string)>)
    ensures r == StringLiteralOf(input)
  {
    var t := SkipSpace(input);
    if |t| > 1 {
      var sb := "";
      var c := t[0];
      if c == '\'' {
        var sawEscape := false;
        var i := 1;
        while i < |t|
          invariant 1 <= i <= |t|
          invariant LiteralFrom(Scan(false, [], []), t[1..]) == LiteralFrom(Scan(sawEscape, sb, []), t[i..])
        {
          c := t[i];
          assert t[i..][0] == c && t[i..][1..] == t[i + 1..];
          assert LiteralFrom(Scan(sawEscape, sb, []), t[i..]) ==
            if c == '\'' && !sawEscape then Some((sb, t[i + 1..]))
            else LiteralFrom(Step(Scan(sawEscape, sb, []), c, '\''), t[i + 1..]);
          if c == '\\' {
            if sawEscape {
              sawEscape := false;
              sb := sb + [c];
            } else {
              sawEscape := true;
            }
          } else if c == '\'' {
            if sawEscape {
              sawEscape := false;
              sb := sb + [c];
            } else {
              return Some((sb, t[i + 1..]));
            }
          } else {
            ghost var before := sb;
            if sawEscape {
              sawEscape := false;
              sb := sb + ['\\'];
            }
            sb := sb + [c];
            assert sb == before + ['\\', c] || sb == before + [c];
          }
          i := i + 1;
        }
      }
    }
    return None;
  }

  /** A quoted literal: the value escaped between single quotes. */
  function Quote(v: string): string
  {
    "'" + Escape(v, '\'') + "'"
  }

  lemma {:induction false} LiteralOfEscaped(current: string, v: string, rest: string)
    ensures LiteralFrom(Scan(false, current, []), Escape(v, '\'') + "'" + rest) == Some((current + v, rest))
    decreases |v|
  {
    var s := Escape(v, '\'') + "'" + rest;
    if v == [] {
      assert s == "'" + rest && current + v == current;
      assert s[1..] == rest;
    } else {
      var c := v[0];
      var tail := Escape(v[1..], '\'') + "'" + rest;
      assert s == EscapeChar(c, '\'') + tail;
      Unescape(current, c, tail);
      LiteralOfEscaped(current + [c], v[1..], rest);
      assert current + [c] + v[1..] == current + v;
    }
  }

  /** The quote scanner takes one escaped character into the literal. */
  lemma Unescape(current: string, c: char, tail: string)
    ensures LiteralFrom(Scan(false, current, []), EscapeChar(c, '\'') + tail) ==
      LiteralFrom(Scan(false, current + [c], []), tail)
  {
    var s := EscapeChar(c, '\'') + tail;
    if c == '\\' || c == '\'' {
      assert s[0] == '\\' && s[1..] == [c] + tail;
      assert LiteralFrom(Scan(false, current, []), s) == LiteralFrom(Scan(true, current, []), [c] + tail);
      assert ([c] + tail)[0] == c && ([c] + tail)[1..] == tail;
    } else {
      assert s[0] == c && s[1..] == tail;
    }
  }

  lemma {:induction false} UnterminatedLiteral(current: string, v: string)
    ensures LiteralFrom(Scan(false, current, []), Escape(v, '\'')) == None
    decreases |v|
  {
    var s := Escape(v, '\'');
    if v != [] {
      var c := v[0];
      var tail := Escape(v[1..], '\'');
      Unescape(current, c, tail);
      UnterminatedLiteral(current + [c], v[1..]);
    }
  }

  /** `stringLiteral` reads back any quoted value after any white space, and stops right after the closing quote. */
  lemma StringLiteralRoundTrip(space: string, v: string, rest: string)
    requires forall i :: 0 <= i < |space| ==> IsWhitespace(space[i])
    ensures StringLiteralOf(space + Quote(v) + rest) == Some((v, rest))
  {
    var input := space + Quote(v) + rest;
    assert input[|space|] == '\'';
    assert LeadingSpace(input) == |space| by {
      assert forall i :: 0 <= i < |space| ==> input[i] == space[i];
    }
    var t := input[|space|..];
    assert t == "'" + (Escape(v, '\'') + "'" + rest);
    assert t[1..] == Escape(v, '\'') + "'" + rest;
    LiteralOfEscaped([], v, rest);
    assert [] + v == v;
  }

  /** Without its closing quote a literal does not parse. */
  lemma StringLiteralUnterminated(v: string)
    ensures StringLiteralOf("'" + Escape(v, '\'')) == None
  {
    var input := "'" + Escape(v, '\'');
    assert LeadingSpace(input) == 0;
    assert input[0..] == input && input[1..] == Escape(v, '\'');
    UnterminatedLiteral([], v);
  }

  /** How many digits `s` has from position `i` on. */
  function DigitsFrom(s: string, i: nat): (n: nat)
    requires i <= |s|
    ensures i + n <= |s|
    ensures forall j :: i <= j < i + n ==> IsDigit(s[j])
    ensures i + n < |s| ==> !IsDigit(s[i + n])
    decreases |s| - i
  {
    if i < |s| && IsDigit(s[i]) then 1 + DigitsFrom(s, i + 1) else 0
  }

  /**
   * `numberLiteral().parse`: after white space, an optional minus sign and
   * at least one digit, taking every digit that follows; accepted only
   * when the previous token was atomic or white space was skipped.
   */
  method NumberLiteral(input: string, lastAtomic: bool) returns (r: Option<(string, string)>)
    ensures var k := LeadingSpace(input);
      var t := input[k..];
      var start := if t != [] && t[0] == '-' then 1 else 0;
      r.Some? <==> start <= |t| && DigitsFrom(t, start) > 0 && (lastAtomic || k > 0)
    ensures r.Some? ==>
      var t := input[LeadingSpace(input)..];
      var n := |r.value.0|;
      n <= |t| && r.value.0 == t[..n] && r.value.1 == t[n..] &&
      (t[0] == '-' ==> n >= 2 && forall j :: 1 <= j < n ==> IsDigit(t[j])) &&
      (t[0] != '-' ==> n >= 1 && forall j :: 0 <= j < n ==> IsDigit(t[j])) &&
      (n == |t| || !IsDigit(t[n]))
  {
    var begin := input;
    var t := SkipSpace(input);
    if |t| > 0 {
      var first := t[0];
      var negative := first == '-';
      var start := if negative then 1 else 0;
      var i := start;
      while i < |t|
        invariant start <= i <= |t| && forall j :: start <= j < i ==> IsDigit(t[j])
      {
        var c := t[i];
        if IsDigit(c) {
          i := i + 1;
        } else {
          break;
        }
      }
      assert i - start == DigitsFrom(t, start);
      if i > start && (lastAtomic || |t| < |begin|) {
        return Some((t[..i], t[i..]));
      } else {
        return None;
      }
    }
    return None;
  }
}
