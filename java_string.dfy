/**
 * The `java.lang.String` operations the core relies on: `trim`, `split` on the
 * pattern `[\t\s]+`, `startsWith`, `compareTo` and `equalsIgnoreCase`.
 */
module JavaString {

  /** Characters matched by `\s` (and `\t`) in a Java regular expression. */
  predicate IsSeparator(c: char) {
    c == ' ' || c == '\t' || c == '\n' || c == '\U{000B}' || c == '\U{000C}' || c == '\r'
  }

  predicate NoSeparator(s: string) {
    forall i :: 0 <= i < |s| ==> !IsSeparator(s[i])
  }

  // ---------------------------------------------------------------- trim
  // The functions carry only cheap contracts; what they remove is stated by
  // the lemmas after them.

  function TrimStart(s: string): (t: string)
    ensures |t| <= |s|
  {
    if s != [] && s[0] <= ' ' then TrimStart(s[1..]) else s
  }

  function TrimEnd(s: string): (t: string)
    ensures |t| <= |s|
  {
    if s != [] && s[|s| - 1] <= ' ' then TrimEnd(s[..|s| - 1]) else s
  }

  /**
   * `String.trim()`: drops every leading and trailing character whose code
   * is at most U+0020, so the result neither starts nor ends with one.
   */
  function Trim(s: string): (t: string)
    ensures t == [] || (t[0] > ' ' && t[|t| - 1] > ' ')
    ensures |t| <= |s|
  {
    TrimStartSpec(s);
    TrimEndSpec(TrimStart(s));
    TrimEnd(TrimStart(s))
  }

  /** TrimStart removes a prefix of characters at most U+0020, and all of it. */
  lemma {:induction false} TrimStartSpec(s: string)
    ensures var t := TrimStart(s);
            && t == s[|s| - |t|..] && (t == [] || t[0] > ' ')
            && forall k :: 0 <= k < |s| - |t| ==> s[k] <= ' '
  {
    if s != [] && s[0] <= ' ' {
      TrimStartSpec(s[1..]);
    }
  }

  /** TrimEnd removes a suffix of characters at most U+0020, and all of it. */
  lemma {:induction false} TrimEndSpec(s: string)
    ensures var t := TrimEnd(s);
            && t == s[..|t|] && (t == [] || t[|t| - 1] > ' ')
            && forall k :: |t| <= k < |s| ==> s[k] <= ' '
  {
    if s != [] && s[|s| - 1] <= ' ' {
      TrimEndSpec(s[..|s| - 1]);
    }
  }

  /** A string with no removable character at either end is its own trim. */
  lemma TrimIdentity(s: string)
    requires s == [] || (s[0] > ' ' && s[|s| - 1] > ' ')
    ensures Trim(s) == s
  {
  }

  /**
   * Trimming a string whose first character is visible keeps that character:
   * the result is a non-empty prefix of the input.
   */
  lemma TrimVisibleStart(s: string)
    requires s != [] && s[0] > ' '
    ensures Trim(s) != [] && Trim(s) == s[..|Trim(s)|]
  {
    TrimEndSpec(s);
  }

  /** `String.startsWith(prefix)`. */
  predicate StartsWith(s: string, prefix: string) {
    |prefix| <= |s| && s[..|prefix|] == prefix
  }

  // ---------------------------------------------------------------- split

  /** Length of the longest prefix of s without a separator. */
  function WordLength(s: string): (n: nat)
    ensures n <= |s|
  {
    if s == [] || IsSeparator(s[0]) then 0 else 1 + WordLength(s[1..])
  }

  lemma {:induction false} WordLengthSpec(s: string)
    ensures NoSeparator(s[..WordLength(s)])
    ensures WordLength(s) < |s| ==> IsSeparator(s[WordLength(s)])
  {
    if s != [] && !IsSeparator(s[0]) {
      WordLengthSpec(s[1..]);
      assert s[..WordLength(s)] == [s[0]] + s[1..][..WordLength(s[1..])];
    }
  }

  /** s without its leading run of separators. */
  function SkipSeparators(s: string): (t: string)
    ensures |t| <= |s|
  {
    if s != [] && IsSeparator(s[0]) then SkipSeparators(s[1..]) else s
  }

  /** The pieces of s between maximal runs of separators, empty pieces included. */
  function Pieces(s: string): (r: seq<string>)
    ensures |r| >= 1
    decreases |s|
  {
    var n := WordLength(s);
    if n == |s| then [s] else [s[..n]] + Pieces(SkipSeparators(s[n + 1..]))
  }

  /** There is one piece exactly when there is no separator (Java's "no match" case). */
  lemma OnePieceIffNoSeparator(s: string)
    ensures |Pieces(s)| == 1 <==> NoSeparator(s)
  {
    WordLengthSpec(s);
    var n := WordLength(s);
    if n == |s| {
      assert s[..n] == s;
    } else {
      assert IsSeparator(s[n]);
    }
  }

  function DropTrailingEmpty(p: seq<string>): (r: seq<string>)
    ensures |r| <= |p|
  {
    if p != [] && p[|p| - 1] == [] then DropTrailingEmpty(p[..|p| - 1]) else p
  }

  lemma {:induction false} DropTrailingEmptyIsPrefix(p: seq<string>)
    ensures DropTrailingEmpty(p) == p[..|DropTrailingEmpty(p)|]
  {
    if p != [] && p[|p| - 1] == [] {
      DropTrailingEmptyIsPrefix(p[..|p| - 1]);
    }
  }

  /**
   * `s.split("[\\t\\s]+")`: the input itself when no separator occurs,
   * otherwise the pieces between separator runs without the trailing empty ones.
   */
  function SplitOnSpaces(s: string): seq<string> {
    var p := Pieces(s);
    if |p| == 1 then p else DropTrailingEmpty(p)
  }

  lemma PiecesOfWord(w: string)
    requires NoSeparator(w)
    ensures Pieces(w) == [w]
  {
    WordLengthOfWord(w, []);
    assert w + [] == w;
  }

  /** A separator-free word and one separator come off the front as one piece. */
  lemma PiecesCons(w: string, c: char, rest: string)
    requires NoSeparator(w) && IsSeparator(c)
    requires rest != [] && !IsSeparator(rest[0])
    ensures Pieces(w + [c] + rest) == [w] + Pieces(rest)
  {
    var s := w + [c] + rest;
    assert s == w + ([c] + rest);
    WordLengthOfWord(w, [c] + rest);
    var n := WordLength(s);
    assert n == |w| && n < |s|;
    assert s[..n] == w;
    assert s[n + 1..] == rest;
    assert SkipSeparators(rest) == rest;
  }

  lemma {:induction false} WordLengthOfWord(w: string, rest: string)
    requires NoSeparator(w)
    requires rest == [] || IsSeparator(rest[0])
    ensures WordLength(w + rest) == |w|
  {
    if w != [] {
      assert (w + rest)[1..] == w[1..] + rest;
      WordLengthOfWord(w[1..], rest);
    }
  }

  /** Fields joined by single tabs, as `String.format("%s\t%s...")` lays them out. */
  function JoinTabs(ws: seq<string>): (r: string)
    requires |ws| >= 1
    ensures |ws[0]| <= |r| && r[..|ws[0]|] == ws[0]
  {
    if |ws| == 1 then ws[0] else ws[0] + "\t" + JoinTabs(ws[1..])
  }

  predicate AreWords(ws: seq<string>) {
    forall i :: 0 <= i < |ws| ==> ws[i] != [] && NoSeparator(ws[i])
  }

  /** Non-empty separator-free fields joined by tabs come apart into those fields. */
  lemma {:induction false} PiecesOfJoin(ws: seq<string>)
    requires |ws| >= 1 && AreWords(ws)
    ensures Pieces(JoinTabs(ws)) == ws
  {
    if |ws| == 1 {
      PiecesOfWord(ws[0]);
    } else {
      var rest := JoinTabs(ws[1..]);
      assert AreWords(ws[1..]);
      PiecesOfJoin(ws[1..]);
      assert rest[0] == ws[1][0];
      PiecesCons(ws[0], '\t', rest);
      assert ws[0] + "\t" + rest == ws[0] + ['\t'] + rest;
      assert [ws[0]] + ws[1..] == ws;
    }
  }

  lemma {:induction false} JoinTabsLast(ws: seq<string>)
    requires |ws| >= 1 && ws[|ws| - 1] != []
    ensures var r := JoinTabs(ws); r != [] && r[|r| - 1] == ws[|ws| - 1][|ws[|ws| - 1]| - 1]
  {
    if |ws| > 1 {
      JoinTabsLast(ws[1..]);
    }
  }

  /**
   * Several non-empty separator-free fields joined by tabs, the first
   * starting and the last ending with a visible character, form a line that
   * is its own trim and splits back into exactly those fields.
   */
  lemma SplitJoin(ws: seq<string>)
    requires |ws| >= 2 && AreWords(ws)
    requires ws[0][0] > ' ' && ws[|ws| - 1][|ws[|ws| - 1]| - 1] > ' '
    ensures Trim(JoinTabs(ws)) == JoinTabs(ws)
    ensures SplitOnSpaces(JoinTabs(ws)) == ws
    ensures JoinTabs(ws)[0] == ws[0][0]
  {
    JoinTabsLast(ws);
    TrimIdentity(JoinTabs(ws));
    PiecesOfJoin(ws);
  }

  /** The first field of a split line is the line's leading word. */
  lemma SplitFirstField(s: string)
    requires |SplitOnSpaces(s)| >= 1
    ensures SplitOnSpaces(s)[0] == s[..WordLength(s)]
  {
    DropTrailingEmptyIsPrefix(Pieces(s));
  }

  /**
   * On a trimmed line, `split` gives a single field exactly when the line has
   * no separator: a trimmed line cannot end in one, so no empty piece is
   * dropped from its end.
   */
  lemma SplitOneIffNoSeparator(s: string)
    requires Trim(s) == s
    ensures |SplitOnSpaces(s)| == 1 <==> NoSeparator(s)
  {
    OnePieceIffNoSeparator(s);
    var p := Pieces(s);
    if |p| > 1 {
      assert s != [] && s[|s| - 1] > ' ';
      LastPieceNonEmpty(s);
      assert DropTrailingEmpty(p) == p;
    }
  }

  /** A string that ends in a non-separator has a non-empty last piece. */
  lemma {:induction false} LastPieceNonEmpty(s: string)
    requires s != [] && !IsSeparator(s[|s| - 1])
    ensures Pieces(s)[|Pieces(s)| - 1] != []
    decreases |s|
  {
    var n := WordLength(s);
    if n < |s| {
      WordLengthSpec(s);
      assert n < |s| - 1;
      var t := s[n + 1..];
      SkipSeparatorsSuffix(t);
      SkipSeparatorsKeepsLast(t);
      var rest := SkipSeparators(t);
      assert rest[|rest| - 1] == t[|t| - 1] == s[|s| - 1];
      LastPieceNonEmpty(rest);
      assert Pieces(s) == [s[..n]] + Pieces(rest);
    }
  }

  /** SkipSeparators drops a prefix of the string. */
  lemma {:induction false} SkipSeparatorsSuffix(t: string)
    ensures var r := SkipSeparators(t); r == t[|t| - |r|..]
  {
    if t != [] && IsSeparator(t[0]) {
      var u := t[1..];
      SkipSeparatorsSuffix(u);
      var r := SkipSeparators(u);
      assert u[|u| - |r|..] == t[|t| - |r|..];
    }
  }

  /** SkipSeparators never drops all of a string that ends in a non-separator. */
  lemma {:induction false} SkipSeparatorsKeepsLast(t: string)
    requires t != [] && !IsSeparator(t[|t| - 1])
    ensures SkipSeparators(t) != []
  {
    if IsSeparator(t[0]) {
      assert |t| > 1;
      SkipSeparatorsKeepsLast(t[1..]);
    }
  }

  // ---------------------------------------------------------------- compareTo

  /**
   * `String.compareTo`: the difference of the first differing characters,
   * or else the difference of the lengths.
   */
  function CompareTo(a: string, b: string): int {
    if a == [] || b == [] then |a| - |b|
    else if a[0] != b[0] then a[0] as int - b[0] as int
    else CompareTo(a[1..], b[1..])
  }

  /** a sorts before b under `compareTo`. */
  predicate Less(a: string, b: string) {
    CompareTo(a, b) < 0
  }

  lemma {:induction false} CompareToAntisymmetric(a: string, b: string)
    ensures CompareTo(a, b) == -CompareTo(b, a)
  {
    if a != [] && b != [] && a[0] == b[0] {
      CompareToAntisymmetric(a[1..], b[1..]);
    }
  }

  lemma {:induction false} CompareToZero(a: string, b: string)
    ensures CompareTo(a, b) == 0 <==> a == b
  {
    if a != [] && b != [] && a[0] == b[0] {
      CompareToZero(a[1..], b[1..]);
      assert a == [a[0]] + a[1..] && b == [b[0]] + b[1..];
    }
  }

  lemma {:induction false} LessTransitive(a: string, b: string, c: string)
    requires Less(a, b) && Less(b, c)
    ensures Less(a, c)
  {
    if a != [] && b != [] && c != [] && a[0] == b[0] && b[0] == c[0] {
      LessTransitive(a[1..], b[1..], c[1..]);
    }
  }

  /** Exactly one of a < b, a == b, b < a holds. */
  lemma LessTrichotomy(a: string, b: string)
    ensures Less(a, b) || a == b || Less(b, a)
    ensures !(Less(a, b) && Less(b, a))
    ensures !Less(a, a)
  {
    CompareToAntisymmetric(a, b);
    CompareToZero(a, b);
    CompareToZero(a, a);
  }

  // ---------------------------------------------------------------- equalsIgnoreCase

  predicate IsAsciiLetter(c: char) {
    'a' <= c <= 'z' || 'A' <= c <= 'Z'
  }

  function AsciiLower(c: char): (l: char)
    ensures !IsAsciiLetter(c) ==> l == c
  {
    if 'A' <= c <= 'Z' then (c as int + 32) as char else c
  }

  function AsciiUpper(c: char): (u: char)
    ensures !IsAsciiLetter(c) ==> u == c
  {
    if 'a' <= c <= 'z' then (c as int - 32) as char else c
  }

  /**
   * Whether `String.equalsIgnoreCase` matches character c against an ASCII
   * character t: equal, equal after ASCII case change, or one of the four
   * non-ASCII characters whose Java upper or lower case is an ASCII letter
   * (U+0130 and U+0131 for i, U+017F for s, U+212A for k).
   */
  predicate CharEqualsIgnoreCase(c: char, t: char) {
    || c == t
    || (IsAsciiLetter(t) && (c == AsciiLower(t) || c == AsciiUpper(t)))
    || (AsciiLower(t) == 'i' && (c == '\U{0130}' || c == '\U{0131}'))
    || (AsciiLower(t) == 's' && c == '\U{017F}')
    || (AsciiLower(t) == 'k' && c == 'K')
  }

  /** `literal.equalsIgnoreCase(s)` for an ASCII literal. */
  predicate EqualsIgnoreCase(literal: string, s: string) {
    |s| == |literal| && forall i :: 0 <= i < |s| ==> CharEqualsIgnoreCase(s[i], literal[i])
  }

  function AsciiLowerString(s: string): (r: string)
    ensures |r| == |s| && forall i :: 0 <= i < |s| ==> r[i] == AsciiLower(s[i])
  {
    if s == [] then [] else [AsciiLower(s[0])] + AsciiLowerString(s[1..])
  }

  predicate IsAscii(s: string) {
    forall i :: 0 <= i < |s| ==> s[i] < '\U{0080}'
  }

  lemma CharEqualsIgnoreCaseAscii(c: char, t: char)
    requires c < '\U{0080}' && t < '\U{0080}' && AsciiLower(t) == t
    ensures CharEqualsIgnoreCase(c, t) <==> AsciiLower(c) == t
  {
  }

  /**
   * For ASCII input and an ASCII literal in lower case, ignoring case means
   * comparing the lower-cased input with the literal.
   */
  lemma EqualsIgnoreCaseAscii(literal: string, s: string)
    requires IsAscii(s) && IsAscii(literal)
    requires AsciiLowerString(literal) == literal
    ensures EqualsIgnoreCase(literal, s) <==> AsciiLowerString(s) == literal
  {
    var low := AsciiLowerString(s);
    if |s| == |literal| {
      forall i | 0 <= i < |s|
        ensures CharEqualsIgnoreCase(s[i], literal[i]) <==> low[i] == literal[i]
      {
        assert AsciiLower(literal[i]) == literal[i];
        CharEqualsIgnoreCaseAscii(s[i], literal[i]);
      }
      assert low == literal <==> forall i :: 0 <= i < |s| ==> low[i] == literal[i];
    }
  }
}
