/**
 * The JavaScript string and number built-ins that the compressor is made of:
 * `String.prototype.split` with a string separator and with the regular
 * expression `/\s+/`, `Array.prototype.join`, their composition
 * `s.split(w).join(c)` (a replace-all), `Math.round`, the UTF-8 byte length
 * that `new Blob([s]).size` reports, and the decimal rendering of a
 * non-negative integer inside a template literal.
 */
module JsText {

  /** A JavaScript number that is an integer or NaN (the only non-integers the model meets). */
  datatype IntOrNaN = Int(value: int) | NaN

  function Min(a: int, b: int): int { if a <= b then a else b }
  function Max(a: int, b: int): int { if a >= b then a else b }

  /**
   * `Math.round(num / den)` computed on exact rationals: `floor(num / den + 1/2)`.
   * The result is the integer nearest to num / den, halves rounded up.
   */
  function RoundDiv(num: int, den: int): (r: int)
    requires den > 0
    ensures 2 * den * r - den <= 2 * num < 2 * den * r + den
  {
    var q := (2 * num + den) / (2 * den);
    assert 2 * den * q <= 2 * num + den < 2 * den * q + 2 * den;
    q
  }

  /** A whole quotient is returned as is. */
  lemma RoundDivMultiple(k: int, den: int)
    requires den > 0
    ensures RoundDiv(k * den, den) == k
  {
    var r := RoundDiv(k * den, den);
    var t := r - k;
    assert 2 * den * r == 2 * den * k + 2 * den * t;
    MulSign(2 * den, t);
  }

  lemma MulSign(a: int, t: int)
    requires a > 0
    ensures t >= 1 ==> a * t >= a
    ensures t <= -1 ==> a * t <= -a
  {
  }

  // ---------------------------------------------------------------------
  // Whitespace and `split(/\s+/)`
  // ---------------------------------------------------------------------

  /** The code points `\s` matches: ECMAScript WhiteSpace and LineTerminator. */
  predicate IsWhitespace(c: char) {
    c == '\t' || c == '\n' || c == '\U{000B}' || c == '\U{000C}' || c == '\r' || c == ' '
    || c == '\U{00A0}' || c == '\U{1680}' || ('\U{2000}' <= c <= '\U{200A}')
    || c == '\U{2028}' || c == '\U{2029}' || c == '\U{202F}' || c == '\U{205F}'
    || c == '\U{3000}' || c == '\U{FEFF}'
  }

  predicate NoWhitespace(s: string) {
    forall i :: 0 <= i < |s| ==> !IsWhitespace(s[i])
  }

  /** `s` with its leading run of whitespace removed. */
  function DropWhitespace(s: string): (r: string)
    ensures |r| <= |s| && r == s[|s| - |r|..]
    ensures r == [] || !IsWhitespace(r[0])
    ensures forall i :: 0 <= i < |s| - |r| ==> IsWhitespace(s[i])
  {
    if s != [] && IsWhitespace(s[0]) then DropWhitespace(s[1..]) else s
  }

  /**
   * `s.split(/\s+/)`: the text between maximal runs of whitespace, in order.
   * A leading or trailing run yields an empty first or last token, and the
   * empty string yields the single token "".
   */
  function Tokens(s: string): (r: seq<string>)
    ensures |r| >= 1
    decreases |s|
  {
    if s == [] then [""]
    else if IsWhitespace(s[0]) then [""] + Tokens(DropWhitespace(s))
    else
      var t := Tokens(s[1..]);
      [[s[0]] + t[0]] + t[1..]
  }

  /** Reference definition: every maximal run of whitespace replaced by one space. */
  function CollapseWhitespace(s: string): string
    decreases |s|
  {
    if s == [] then []
    else if IsWhitespace(s[0]) then " " + CollapseWhitespace(DropWhitespace(s))
    else [s[0]] + CollapseWhitespace(s[1..])
  }

  // ---------------------------------------------------------------------
  // `split` with a string separator, `join`, and their composition
  // ---------------------------------------------------------------------

  /** `parts.join(sep)` */
  function Join(parts: seq<string>, sep: string): string {
    if parts == [] then ""
    else if |parts| == 1 then parts[0]
    else parts[0] + sep + Join(parts[1..], sep)
  }

  /** `s.split("")`: one piece per character, none for the empty string. */
  function Chars(s: string): (r: seq<string>)
    ensures |r| == |s|
  {
    if s == [] then [] else [[s[0]]] + Chars(s[1..])
  }

  /**
   * `s.split(sep)`: with a non-empty separator, the pieces between the
   * non-overlapping occurrences of `sep` found scanning left to right.
   */
  function Split(s: string, sep: string): (r: seq<string>)
    ensures sep != [] ==> |r| >= 1
    decreases |s|
  {
    if sep == [] then Chars(s)
    else if |sep| <= |s| && s[..|sep|] == sep then [""] + Split(s[|sep|..], sep)
    else if s == [] then [""]
    else
      var t := Split(s[1..], sep);
      [[s[0]] + t[0]] + t[1..]
  }

  /**
   * `s.split(w).join(c)`: every non-overlapping left-to-right occurrence of
   * `w` replaced by `c`; for `w == ""`, `c` inserted between characters.
   */
  function ReplaceAll(s: string, w: string, c: string): string {
    Join(Split(s, w), c)
  }

  /** `w` occurs in `s` starting at index `i`. */
  ghost predicate MatchAt(w: string, s: string, i: int) {
    0 <= i <= |s| - |w| && s[i..i + |w|] == w
  }

  /** `w` occurs as a contiguous substring of `s`. */
  ghost predicate Occurs(w: string, s: string) {
    exists i :: MatchAt(w, s, i)
  }

  // ---------------------------------------------------------------------
  // Byte length and decimal rendering
  // ---------------------------------------------------------------------

  /** An element of a `Uint8Array`. */
  newtype byte = x: int | 0 <= x < 256

  /** Number of bytes of a code point in UTF-8. */
  function Utf8Width(c: char): (n: nat)
    ensures 1 <= n <= 4
  {
    if c as int < 0x80 then 1
    else if c as int < 0x800 then 2
    else if c as int < 0x10000 then 3
    else 4
  }

  /** `new Blob([s]).size`: the UTF-8 byte length of `s`. */
  function Utf8Length(s: string): (n: nat)
    ensures |s| <= n <= 4 * |s|
  {
    if s == [] then 0 else Utf8Width(s[0]) + Utf8Length(s[1..])
  }

  function DigitChar(d: nat): (c: char)
    requires d < 10
    ensures '0' <= c <= '9' && c as int - '0' as int == d
  {
    ('0' as int + d) as char
  }

  /** `${n}` for a non-negative integer: its shortest decimal rendering. */
  function Decimal(n: nat): (s: string)
    ensures |s| >= 1
    ensures forall i :: 0 <= i < |s| ==> '0' <= s[i] <= '9'
  {
    if n < 10 then [DigitChar(n)] else Decimal(n / 10) + [DigitChar(n % 10)]
  }

  // ---------------------------------------------------------------------
  // Lemmas
  // ---------------------------------------------------------------------

  lemma {:induction false} JoinHead(x: string, y: string, rest: seq<string>, sep: string)
    ensures Join([x + y] + rest, sep) == x + Join([y] + rest, sep)
  {
    if rest == [] {
      assert [x + y] + rest == [x + y];
      assert [y] + rest == [y];
    } else {
      assert ([x + y] + rest)[1..] == rest;
      assert ([y] + rest)[1..] == rest;
    }
  }

  lemma {:induction false} JoinPrepend(x: string, rest: seq<string>, sep: string)
    requires rest != []
    ensures Join([x] + rest, sep) == x + sep + Join(rest, sep)
  {
    assert ([x] + rest)[1..] == rest;
  }

  /** Partner of Tokens: joining the tokens with one space collapses each whitespace run. */
  lemma {:induction false} TokensJoin(s: string)
    ensures Join(Tokens(s), " ") == CollapseWhitespace(s)
    decreases |s|, 1
  {
    if s == [] {
    } else if IsWhitespace(s[0]) {
      TokensJoinAtSpace(s);
    } else {
      TokensJoinPastChar(s);
    }
  }

  lemma {:induction false} TokensJoinAtSpace(s: string)
    requires s != [] && IsWhitespace(s[0])
    ensures Join(Tokens(s), " ") == CollapseWhitespace(s)
    decreases |s|, 0
  {
    var d := DropWhitespace(s);
    var t := Tokens(d);
    TokensJoin(d);
    assert Tokens(s) == [""] + t;
    assert CollapseWhitespace(s) == " " + CollapseWhitespace(d);
    JoinPrepend("", t, " ");
    assert "" + " " == " ";
  }

  lemma {:induction false} TokensJoinPastChar(s: string)
    requires s != [] && !IsWhitespace(s[0])
    ensures Join(Tokens(s), " ") == CollapseWhitespace(s)
    decreases |s|, 0
  {
    var t := Tokens(s[1..]);
    TokensJoin(s[1..]);
    JoinHead([s[0]], t[0], t[1..], " ");
    assert [t[0]] + t[1..] == t;
  }

  /** No token contains whitespace. */
  lemma {:induction false} TokensNoWhitespace(s: string)
    ensures forall k :: 0 <= k < |Tokens(s)| ==> NoWhitespace(Tokens(s)[k])
    decreases |s|
  {
    if s == [] {
    } else if IsWhitespace(s[0]) {
      TokensNoWhitespace(DropWhitespace(s));
    } else {
      TokensNoWhitespace(s[1..]);
    }
  }

  /** Text without whitespace is a single token: itself. */
  lemma {:induction false} TokensOfPlainText(s: string)
    requires NoWhitespace(s)
    ensures Tokens(s) == [s]
    decreases |s|
  {
    if s != [] {
      TokensOfPlainText(s[1..]);
      assert [s[0]] + s[1..] == s;
    }
  }

  lemma {:induction false} TokensEmptyEnds(u: string)
    ensures Tokens(u)[0] == "" <==> u == [] || IsWhitespace(u[0])
    ensures "" in Tokens(u)[1..] <==> u != [] && IsWhitespace(u[|u| - 1])
    decreases |u|
  {
    if u == [] {
    } else if IsWhitespace(u[0]) {
      var d := DropWhitespace(u);
      TokensEmptyEnds(d);
      assert Tokens(u)[1..] == Tokens(d);
      assert "" in Tokens(d) <==> Tokens(d)[0] == "" || "" in Tokens(d)[1..] by {
        assert Tokens(d) == [Tokens(d)[0]] + Tokens(d)[1..];
      }
      if d != [] {
        assert d[|d| - 1] == u[|u| - 1];
      }
    } else {
      var t := Tokens(u[1..]);
      TokensEmptyEnds(u[1..]);
      assert Tokens(u)[1..] == t[1..];
      assert Tokens(u)[0] != "";
      if u[1..] != [] {
        assert u[1..][|u[1..]| - 1] == u[|u| - 1];
      }
    }
  }

  /**
   * An empty token occurs exactly when the text is empty or starts or ends
   * with whitespace.
   */
  lemma EmptyTokenIff(s: string)
    ensures "" in Tokens(s) <==> s == [] || IsWhitespace(s[0]) || IsWhitespace(s[|s| - 1])
  {
    TokensEmptyEnds(s);
    assert Tokens(s) == [Tokens(s)[0]] + Tokens(s)[1..];
  }

  lemma {:induction false} JoinChars(s: string)
    ensures Join(Chars(s), "") == s
  {
    if |s| > 1 {
      JoinChars(s[1..]);
      JoinPrepend([s[0]], Chars(s[1..]), "");
      assert [s[0]] + s[1..] == s;
    }
  }

  /** Partner of Split: joining the pieces with the separator gives the text back. */
  lemma {:induction false} JoinSplit(s: string, sep: string)
    ensures Join(Split(s, sep), sep) == s
    decreases |s|, 1
  {
    if sep == [] {
      JoinChars(s);
    } else if |sep| <= |s| && s[..|sep|] == sep {
      JoinSplitAtMatch(s, sep);
    } else if s == [] {
      assert Split(s, sep) == [""];
    } else {
      JoinSplitPastChar(s, sep);
    }
  }

  lemma {:induction false} JoinSplitAtMatch(s: string, sep: string)
    requires sep != [] && |sep| <= |s| && s[..|sep|] == sep
    ensures Join(Split(s, sep), sep) == s
    decreases |s|, 0
  {
    var rest := s[|sep|..];
    var t := Split(rest, sep);
    JoinSplit(rest, sep);
    assert Split(s, sep) == [""] + t;
    JoinPrepend("", t, sep);
    assert Join([""] + t, sep) == sep + rest by {
      assert "" + sep == sep;
    }
    assert s == sep + rest by {
      assert s == s[..|sep|] + rest;
    }
  }

  lemma {:induction false} JoinSplitPastChar(s: string, sep: string)
    requires sep != [] && s != [] && !(|sep| <= |s| && s[..|sep|] == sep)
    ensures Join(Split(s, sep), sep) == s
    decreases |s|, 0
  {
    var rest := s[1..];
    var t := Split(rest, sep);
    JoinSplit(rest, sep);
    assert Split(s, sep) == [[s[0]] + t[0]] + t[1..];
    JoinHead([s[0]], t[0], t[1..], sep);
    assert [t[0]] + t[1..] == t;
    assert [s[0]] + rest == s;
  }

  /** Replacing a string by itself changes nothing. */
  lemma ReplaceAllSelf(s: string, w: string)
    ensures ReplaceAll(s, w, w) == s
  {
    JoinSplit(s, w);
  }

  /** An occurrence in `[x] + u` is at its very start or is an occurrence in `u`. */
  lemma OccursShift(x: char, u: string, w: string)
    requires w != []
    ensures Occurs(w, [x] + u) ==> Occurs(w, u) || (|w| <= |u| + 1 && ([x] + u)[..|w|] == w)
  {
    var v := [x] + u;
    if Occurs(w, v) {
      var i :| MatchAt(w, v, i);
      if i != 0 {
        assert u[i - 1..i - 1 + |w|] == v[i..i + |w|];
        assert MatchAt(w, u, i - 1);
      }
    }
  }

  /**
   * The pieces of a left-to-right split: no occurrence of the separator starts
   * inside a piece that a separator follows (not even one overlapping that
   * separator), and the last piece holds no occurrence at all.
   */
  ghost predicate LeftmostPieces(ps: seq<string>, w: string)
    requires w != []
  {
    && (forall k :: 0 <= k < |ps| - 1 ==> !Occurs(w, ps[k] + w[..|w| - 1]))
    && (|ps| >= 1 ==> !Occurs(w, ps[|ps| - 1]))
  }

  lemma FirstPieceNoMatch(s: string, w: string, t: seq<string>)
    requires w != [] && s != [] && !(|w| <= |s| && s[..|w|] == w)
    requires |t| >= 2 && Join(t, w) == s[1..]
    requires !Occurs(w, t[0] + w[..|w| - 1])
    ensures !Occurs(w, [s[0]] + t[0] + w[..|w| - 1])
  {
    var j := Join(t[1..], w);
    JoinPrepend(t[0], t[1..], w);
    assert [t[0]] + t[1..] == t;
    var q := [s[0]] + t[0];
    var p0 := q + w[..|w| - 1];
    assert s == q + w + j by {
      assert s == [s[0]] + s[1..];
    }
    assert s[..|p0|] == p0 by {
      assert s[..|q|] == q;
      assert s[|q|..|q| + |w| - 1] == w[..|w| - 1];
    }
    OccursShift(s[0], t[0] + w[..|w| - 1], w);
    assert [s[0]] + (t[0] + w[..|w| - 1]) == p0;
  }

  /** Split scans left to right (see LeftmostPieces). */
  lemma {:induction false} SplitLeftmost(s: string, w: string)
    requires w != []
    ensures LeftmostPieces(Split(s, w), w)
    decreases |s|, 1
  {
    if |w| <= |s| && s[..|w|] == w {
      SplitLeftmostAtMatch(s, w);
    } else if s == [] {
      assert Split(s, w) == [""];
      assert !MatchAt(w, "", 0);
    } else {
      SplitLeftmostPastChar(s, w);
    }
  }

  /** The case where the separator opens the text. */
  lemma {:induction false} SplitLeftmostAtMatch(s: string, w: string)
    requires w != [] && |w| <= |s| && s[..|w|] == w
    ensures LeftmostPieces(Split(s, w), w)
    decreases |s|, 0
  {
    var ps := Split(s, w);
    var t := Split(s[|w|..], w);
    SplitLeftmost(s[|w|..], w);
    assert ps == [""] + t;
    assert "" + w[..|w| - 1] == w[..|w| - 1];
    assert !Occurs(w, w[..|w| - 1]);
    forall k | 1 <= k < |ps| - 1 ensures !Occurs(w, ps[k] + w[..|w| - 1]) {
      assert ps[k] == t[k - 1];
    }
    assert ps[|ps| - 1] == t[|t| - 1];
  }

  /** The case where the text opens with a character that starts no separator. */
  lemma {:induction false} SplitLeftmostPastChar(s: string, w: string)
    requires w != [] && s != [] && !(|w| <= |s| && s[..|w|] == w)
    ensures LeftmostPieces(Split(s, w), w)
    decreases |s|, 0
  {
    var ps := Split(s, w);
    var t := Split(s[1..], w);
    SplitLeftmost(s[1..], w);
    assert ps == [[s[0]] + t[0]] + t[1..];
    JoinSplit(s[1..], w);
    if |t| == 1 {
      assert t == [s[1..]];
      LastPieceAlone(s, w, t);
      assert ps == [s] by {
        assert [s[0]] + s[1..] == s;
      }
    } else {
      FirstPieceNoMatch(s, w, t);
      ExtendFirstPiece(s[0], t, w);
    }
  }

  /** Putting a character in front of the first of several pieces keeps them leftmost, if it creates no occurrence. */
  lemma ExtendFirstPiece(x: char, t: seq<string>, w: string)
    requires w != [] && |t| >= 2 && LeftmostPieces(t, w)
    requires !Occurs(w, [x] + t[0] + w[..|w| - 1])
    ensures LeftmostPieces([[x] + t[0]] + t[1..], w)
  {
    var ps := [[x] + t[0]] + t[1..];
    forall k | 0 <= k < |ps| - 1 ensures !Occurs(w, ps[k] + w[..|w| - 1]) {
      if k > 0 {
        assert ps[k] == t[k];
      }
    }
    assert ps[|ps| - 1] == t[|t| - 1];
  }

  /** A single piece after a character that starts no separator: the whole text has no occurrence. */
  lemma LastPieceAlone(s: string, w: string, t: seq<string>)
    requires w != [] && s != [] && !(|w| <= |s| && s[..|w|] == w)
    requires t == [s[1..]] && !Occurs(w, s[1..])
    ensures !Occurs(w, s)
    ensures LeftmostPieces([s], w)
  {
    OccursShift(s[0], s[1..], w);
    assert [s[0]] + s[1..] == s;
  }

  lemma {:induction false} SplitAbsent(s: string, w: string)
    requires w != []
    ensures Split(s, w) == [s] || Occurs(w, s)
    decreases |s|
  {
    if |w| <= |s| && s[..|w|] == w {
      assert MatchAt(w, s, 0);
    } else if s != [] {
      SplitAbsent(s[1..], w);
      if Occurs(w, s[1..]) {
        var i :| MatchAt(w, s[1..], i);
        assert s[i + 1..i + 1 + |w|] == s[1..][i..i + |w|];
        assert MatchAt(w, s, i + 1);
      } else {
        assert [s[0]] + s[1..] == s;
      }
    }
  }

  /** Text that does not contain `w` is left unchanged. */
  lemma ReplaceAllAbsent(s: string, w: string, c: string)
    requires w != [] && !Occurs(w, s)
    ensures ReplaceAll(s, w, c) == s
  {
    SplitAbsent(s, w);
    assert Split(s, w) == [s];
  }

  /** The whole text, when it is the pattern, becomes the replacement. */
  lemma ReplaceAllWhole(w: string, c: string)
    requires w != []
    ensures ReplaceAll(w, w, c) == c
  {
    assert w[..|w|] == w;
    assert w[|w|..] == [];
    assert Split(w[|w|..], w) == [""];
    assert Split(w, w) == ["", ""];
    assert Join(["", ""], c) == "" + c + Join([""], c);
  }

  /** Different numbers render differently. */
  lemma {:induction false} DecimalInjective(a: nat, b: nat)
    requires Decimal(a) == Decimal(b)
    ensures a == b
  {
    if a < 10 && b < 10 {
      assert Decimal(a)[0] == DigitChar(a);
    } else if a < 10 || b < 10 {
    } else {
      var da, db := Decimal(a / 10), Decimal(b / 10);
      assert Decimal(a)[|Decimal(a)| - 1] == DigitChar(a % 10);
      assert Decimal(b)[|Decimal(b)| - 1] == DigitChar(b % 10);
      assert Decimal(a)[..|Decimal(a)| - 1] == da;
      assert Decimal(b)[..|Decimal(b)| - 1] == db;
      DecimalInjective(a / 10, b / 10);
    }
  }
}
