/**
 * The string primitives behind PersonName, on strings of code points (the
 * unit of mb_substr): the character sets of mb_trim, trim and the PCRE
 * classes `\s` and `\w`, trimming, whitespace collapsing, the two-piece
 * split, the bracket stripper and the initials scanner.
 */
module Strings {

  /** The character sets the trimming and splitting primitives work with. */
  datatype CharClass =
    | Space      // PCRE `\s` under the /u modifier
    | MbTrimSet  // the default set of mb_trim
    | TrimSet    // the default set of the byte-wise trim: " \t\n\r\v\0"

  /**
   * Unicode white space, what `\s` matches under /u: the ordinary space,
   * tab to carriage return, U+0085, U+00A0, U+1680, U+180E, U+2000 to
   * U+200A, U+2028, U+2029, U+202F, U+205F and U+3000 (the separators of
   * category Z together with PCRE's horizontal and vertical space lists).
   */
  predicate IsSpace(c: char) {
    var n := c as int;
    n == 0x20 || (0x09 <= n <= 0x0D) || n == 0x85 || n == 0xA0 || n == 0x1680 || n == 0x180E
    || (0x2000 <= n <= 0x200A) || n == 0x2028 || n == 0x2029 || n == 0x202F
    || n == 0x205F || n == 0x3000
  }

  predicate In(cls: CharClass, c: char) {
    match cls
    case Space => IsSpace(c)
    case MbTrimSet => IsSpace(c) || c == '\0'
    case TrimSet => c in {' ', '\t', '\n', '\r', '\U{0B}', '\0'}
  }

  /** What `\w` matches under /u: letters, digits and the underscore (see README for the table's extent). */
  predicate IsWordChar(c: char) {
    var n := c as int;
    ('0' <= c <= '9') || ('A' <= c <= 'Z') || ('a' <= c <= 'z') || c == '_'
    || n == 0xAA || n == 0xB5 || n == 0xBA
    || (0xC0 <= n <= 0xD6) || (0xD8 <= n <= 0xF6) || (0xF8 <= n <= 0x24F)
    || (0x4E00 <= n <= 0x9FFF)
  }

  /** Lower-casing of one character, as mb_strtolower does it (see README for the table's extent). */
  function ToLower(c: char): (r: char)
    ensures r == 's' <==> c == 's' || c == 'S'
    ensures r == ' ' <==> c == ' '
    ensures !('A' <= r <= 'Z')
  {
    var n := c as int;
    if ('A' <= c <= 'Z') || (0xC0 <= n <= 0xDE && n != 0xD7) then (n + 32) as char else c
  }

  /** mb_strtolower: lower-cases every character, keeping the length. */
  function Lower(s: string): (r: string)
    ensures |r| == |s|
    ensures forall k :: 0 <= k < |s| ==> r[k] == ToLower(s[k])
  {
    if s == [] then [] else [ToLower(s[0])] + Lower(s[1..])
  }

  /** Drops the leading characters that belong to `cls`. */
  function TrimStart(s: string, cls: CharClass): (r: string)
    ensures |r| <= |s| && r == s[|s| - |r|..]
    ensures forall k :: 0 <= k < |s| - |r| ==> In(cls, s[k])
    ensures r != [] ==> !In(cls, r[0])
  {
    if s != [] && In(cls, s[0]) then TrimStart(s[1..], cls) else s
  }

  /** Drops the trailing characters that belong to `cls`. */
  function TrimEnd(s: string, cls: CharClass): (r: string)
    ensures |r| <= |s| && r == s[..|r|]
    ensures forall k :: |r| <= k < |s| ==> In(cls, s[k])
    ensures r != [] ==> !In(cls, r[|r| - 1])
  {
    if s != [] && In(cls, s[|s| - 1]) then TrimEnd(s[..|s| - 1], cls) else s
  }

  /** trim / mb_trim: drops the characters of `cls` at both ends. */
  function Trim(s: string, cls: CharClass): (r: string)
    ensures |r| <= |s|
    ensures r == [] <==> forall k :: 0 <= k < |s| ==> In(cls, s[k])
    ensures r != [] ==> !In(cls, r[0]) && !In(cls, r[|r| - 1])
    ensures (s == [] || (!In(cls, s[0]) && !In(cls, s[|s| - 1]))) ==> r == s
  {
    TrimBothEnds(s, cls);
    TrimEnd(TrimStart(s, cls), cls)
  }

  lemma TrimBothEnds(s: string, cls: CharClass)
    ensures var r := TrimEnd(TrimStart(s, cls), cls);
      && (r == [] <==> forall k :: 0 <= k < |s| ==> In(cls, s[k]))
      && (r != [] ==> !In(cls, r[0]))
  {
    var t := TrimStart(s, cls);
    var r := TrimEnd(t, cls);
    if r != [] {
      assert r[0] == t[0];
    }
  }

  /** Where the part Trim keeps starts: just after the leading run of `cls` characters. */
  function TrimOffset(s: string, cls: CharClass): (i: nat)
    ensures i <= |s|
  {
    |s| - |TrimStart(s, cls)|
  }

  /**
   * Trim keeps exactly an infix of `s`: the part starting at TrimOffset.
   * TrimmedEnds says that what lies before and after it is trimmable; with
   * Trim's own ensures (no end of a non-empty result is trimmable) this pins
   * the result.
   */
  lemma TrimIsInfix(s: string, cls: CharClass)
    ensures TrimOffset(s, cls) + |Trim(s, cls)| <= |s|
    ensures Trim(s, cls) == s[TrimOffset(s, cls)..TrimOffset(s, cls) + |Trim(s, cls)|]
  {
    var t := TrimStart(s, cls);
    var r := TrimEnd(t, cls);
    assert Trim(s, cls) == r;
    assert TrimOffset(s, cls) == |s| - |t|;
    PrefixOfSuffix(s, t, r);
  }

  /** A prefix of a suffix of `s` is an infix of `s`. */
  lemma PrefixOfSuffix(s: string, t: string, r: string)
    requires |t| <= |s| && t == s[|s| - |t|..]
    requires |r| <= |t| && r == t[..|r|]
    ensures r == s[|s| - |t|..|s| - |t| + |r|]
  {
  }

  /** Everything Trim drops, before and after the part it keeps, is trimmable. */
  lemma TrimmedEnds(s: string, cls: CharClass)
    ensures forall k :: 0 <= k < TrimOffset(s, cls) ==> In(cls, s[k])
    ensures forall k :: TrimOffset(s, cls) + |Trim(s, cls)| <= k < |s| ==> In(cls, s[k])
  {
    var t := TrimStart(s, cls);
    var r := TrimEnd(t, cls);
    var i := |s| - |t|;
    forall k | i + |r| <= k < |s| ensures In(cls, s[k]) {
      assert s[k] == t[k - i];
    }
  }

  /** Trimming keeps a string free of `\s` characters. */
  lemma TrimKeepsNoSpace(s: string, cls: CharClass)
    requires forall k :: 0 <= k < |s| ==> !IsSpace(s[k])
    ensures forall k :: 0 <= k < |Trim(s, cls)| ==> !IsSpace(Trim(s, cls)[k])
  {
    TrimIsInfix(s, cls);
    InfixKeepsNoSpace(s, TrimOffset(s, cls), Trim(s, cls));
  }

  lemma InfixKeepsNoSpace(s: string, i: nat, r: string)
    requires forall k :: 0 <= k < |s| ==> !IsSpace(s[k])
    requires i + |r| <= |s| && r == s[i..i + |r|]
    ensures forall k :: 0 <= k < |r| ==> !IsSpace(r[k])
  {
    forall k | 0 <= k < |r| ensures !IsSpace(r[k]) {
      assert r[k] == s[i + k];
    }
  }

  /** mb_trim with its default character set. */
  function MbTrim(s: string): string {
    Trim(s, MbTrimSet)
  }

  /** A string that mb_trim empties. */
  predicate IsBlank(s: string) {
    MbTrim(s) == []
  }

  /** The length of the longest prefix of `s` free of `\s` characters. */
  function SpanNonSpace(s: string): (i: nat)
    ensures i <= |s|
    ensures forall k :: 0 <= k < i ==> !IsSpace(s[k])
    ensures i < |s| ==> IsSpace(s[i])
  {
    if s == [] || IsSpace(s[0]) then 0 else 1 + SpanNonSpace(s[1..])
  }

  /** Every `\s` character is a plain space and no two of them are adjacent. */
  ghost predicate SingleSpaced(r: string) {
    && (forall k :: 0 <= k < |r| && IsSpace(r[k]) ==> r[k] == ' ')
    && (forall j, k :: 0 <= j && k == j + 1 && k < |r| ==> !(IsSpace(r[j]) && IsSpace(r[k])))
  }

  /**
   * preg_replace('/\s+/u', ' ', s): every maximal run of `\s` characters
   * becomes one space (CollapseSpacesShape states the shape of the result).
   */
  function CollapseSpaces(s: string): (r: string)
    ensures |r| <= |s|
    ensures r == [] <==> s == []
    ensures s != [] && !IsSpace(s[0]) ==> r[0] == s[0]
    ensures s != [] && !IsSpace(s[|s| - 1]) ==> r[|r| - 1] == s[|s| - 1]
    decreases |s|
  {
    if s == [] then []
    else if IsSpace(s[0]) then
      var rest := TrimStart(s, Space);
      assert rest != [] ==> rest[0] != s[0];
      [' '] + CollapseSpaces(rest)
    else
      [s[0]] + CollapseSpaces(s[1..])
  }

  /**
   * preg_split('/\s+/u', s, 2, PREG_SPLIT_NO_EMPTY): empty pieces are dropped
   * without using up the limit, so a leading run of `\s` is skipped; the
   * first piece ends at the next run and the second is everything after it.
   */
  function SplitTwo(s: string): (parts: seq<string>)
    ensures |parts| <= 2
    ensures parts == [] <==> forall k :: 0 <= k < |s| ==> IsSpace(s[k])
    ensures parts != [] ==> parts[0] != [] && forall k :: 0 <= k < |parts[0]| ==> !IsSpace(parts[0][k])
    ensures s != [] && !IsSpace(s[0]) ==> parts != [] && parts[0][0] == s[0]
    ensures |parts| == 2 ==> parts[1] != [] && !IsSpace(parts[1][0])
  {
    var t := TrimStart(s, Space);
    if t == [] then []
    else
      var i := SpanNonSpace(t);
      var rest := TrimStart(t[i..], Space);
      SplitTwoPieces(s);
      PrefixBeforeSpan(t);
      assert rest != [] ==> !In(Space, rest[0]);
      if rest == [] then [t[..i]] else [t[..i], rest]
  }

  lemma SplitTwoPieces(s: string)
    ensures var t := TrimStart(s, Space);
      && (t == [] <==> forall k :: 0 <= k < |s| ==> IsSpace(s[k]))
      && (t != [] ==> SpanNonSpace(t) > 0 && t[..SpanNonSpace(t)][0] == t[0])
      && (s != [] && !IsSpace(s[0]) ==> t == s)
  {
    TrimStartEmptyIff(s);
    SpanHead(TrimStart(s, Space));
  }

  lemma TrimStartEmptyIff(s: string)
    ensures TrimStart(s, Space) == [] <==> forall k :: 0 <= k < |s| ==> IsSpace(s[k])
  {
    var t := TrimStart(s, Space);
    if t != [] {
      assert t[0] == s[|s| - |t|];
    }
  }

  lemma SpanHead(t: string)
    requires t != [] ==> !IsSpace(t[0])
    ensures t != [] ==> SpanNonSpace(t) > 0 && t[..SpanNonSpace(t)][0] == t[0]
  {
  }

  /** The index of the first `c` in `s`, or |s| when there is none. */
  function IndexOf(s: string, c: char): (i: nat)
    ensures i <= |s|
    ensures forall k :: 0 <= k < i ==> s[k] != c
    ensures i < |s| ==> s[i] == c
  {
    if s == [] || s[0] == c then 0 else 1 + IndexOf(s[1..], c)
  }

  /**
   * preg_replace('/\([^)]*\)|\[[^]]*]/u', '', s): scanning left to right,
   * removes each "(" up to the next ")" and each "[" up to the next "]";
   * an opening bracket with no closing one after it stays.
   */
  function StripGroups(s: string): (r: string)
    ensures |r| <= |s|
    ensures (forall k :: 0 <= k < |s| ==> s[k] != '(' && s[k] != '[') ==> r == s
    decreases |s|
  {
    if s == [] then []
    else if s[0] == '(' && IndexOf(s[1..], ')') < |s| - 1 then
      StripGroups(s[IndexOf(s[1..], ')') + 2..])
    else if s[0] == '[' && IndexOf(s[1..], ']') < |s| - 1 then
      StripGroups(s[IndexOf(s[1..], ']') + 2..])
    else
      [s[0]] + StripGroups(s[1..])
  }

  /**
   * The first character of every match of the pattern \b(\w)\w* (under /u), that is, of every
   * maximal run of word characters; `afterWord` says whether the character
   * before `s` was a word character.
   */
  function WordInitialsAfter(s: string, afterWord: bool): (r: string)
    ensures |r| <= |s|
    ensures forall k :: 0 <= k < |r| ==> IsWordChar(r[k])
  {
    if s == [] then []
    else if IsWordChar(s[0]) && !afterWord then [s[0]] + WordInitialsAfter(s[1..], true)
    else WordInitialsAfter(s[1..], IsWordChar(s[0]))
  }

  function WordInitials(s: string): string {
    WordInitialsAfter(s, false)
  }

  /**
   * str_replace(c, '', s): removes every occurrence of `c` and keeps every
   * other character in order (the two one-character cases below together
   * with WithoutAppend determine the result).
   */
  function Without(s: string, c: char): (r: string)
    ensures |r| <= |s|
    ensures forall k :: 0 <= k < |r| ==> r[k] != c
    ensures s == [] ==> r == []
    ensures |s| == 1 ==> r == (if s[0] == c then [] else s)
  {
    if s == [] then []
    else if s[0] == c then Without(s[1..], c)
    else [s[0]] + Without(s[1..], c)
  }

  /**
   * Collapsing whitespace keeps the token before the first `\s` run as it
   * is: the result is that token, then one space and the collapsed rest.
   */
  ghost predicate CollapsesAtFirstSpace(t: string) {
    var i := SpanNonSpace(t);
    && (i == |t| ==> CollapseSpaces(t) == t)
    && (i < |t| ==> CollapseSpaces(t) == t[..i] + [' '] + CollapseSpaces(TrimStart(t[i..], Space)))
  }

  lemma {:induction false} CollapseAtFirstSpace(t: string)
    ensures CollapsesAtFirstSpace(t)
    decreases |t|
  {
    if t != [] && !IsSpace(t[0]) {
      CollapseAtFirstSpace(t[1..]);
      CollapseNonSpaceStep(t);
    } else if t != [] {
      CollapseSpaceStep(t);
    }
  }

  lemma CollapseNonSpaceStep(t: string)
    requires t != [] && !IsSpace(t[0])
    requires CollapsesAtFirstSpace(t[1..])
    ensures CollapsesAtFirstSpace(t)
  {
    var u := t[1..];
    var j := SpanNonSpace(u);
    assert CollapseSpaces(t) == [t[0]] + CollapseSpaces(u);
    assert SpanNonSpace(t) == j + 1;
    ConsSlices(t, j);
    if j < |u| {
      var rest := CollapseSpaces(TrimStart(u[j..], Space));
      assert u[j..] == t[j + 1..];
      ConcatAssoc([t[0]], u[..j], [' '], rest);
    }
  }

  lemma CollapseSpaceStep(t: string)
    requires t != [] && IsSpace(t[0])
    ensures CollapsesAtFirstSpace(t)
  {
    assert SpanNonSpace(t) == 0;
    ConsSlices(t, 0);
    var rest := CollapseSpaces(TrimStart(t, Space));
    assert CollapseSpaces(t) == [' '] + rest;
    EmptyPrefix([' '] + rest);
  }

  lemma EmptyPrefix(x: string)
    ensures [] + x == x
  {
  }

  lemma ConcatAssoc(a: string, b: string, c: string, d: string)
    ensures a + ((b + c) + d) == ((a + b) + c) + d
  {
  }

  lemma ConsSlices(t: string, j: nat)
    requires j < |t|
    ensures t[..j + 1] == [t[0]] + t[1..][..j]
    ensures t[1..][j..] == t[j + 1..]
    ensures t[0..] == t && t[..0] == [] && t[..|t|] == t
  {
  }

  /** A non-word character separates the initials of what precedes it from those of what follows. */
  lemma {:induction false} WordInitialsSplit(a: string, c: char, b: string, afterWord: bool)
    requires !IsWordChar(c)
    ensures WordInitialsAfter(a + [c] + b, afterWord) == WordInitialsAfter(a, afterWord) + WordInitials(b)
    decreases |a|
  {
    if a == [] {
      assert a + [c] + b == [c] + b;
      assert ([c] + b)[1..] == b;
    } else {
      WordInitialsSplit(a[1..], c, b, IsWordChar(a[0]));
      assert (a + [c] + b)[1..] == a[1..] + [c] + b;
    }
  }

  /** Inside a run of word characters no new initial starts. */
  lemma {:induction false} NoInitialInsideWord(w: string)
    requires forall k :: 0 <= k < |w| ==> IsWordChar(w[k])
    ensures WordInitialsAfter(w, true) == []
  {
    if w != [] {
      NoInitialInsideWord(w[1..]);
    }
  }

  /** A single word contributes exactly its first character. */
  lemma WordInitialsOfWord(w: string)
    requires w != [] && forall k :: 0 <= k < |w| ==> IsWordChar(w[k])
    ensures WordInitials(w) == [w[0]]
  {
    NoInitialInsideWord(w[1..]);
  }

  /** Removing a character distributes over concatenation. */
  lemma {:induction false} WithoutAppend(a: string, b: string, c: char)
    ensures Without(a + b, c) == Without(a, c) + Without(b, c)
  {
    var s := a + b;
    if a == [] {
      assert s == b;
    } else {
      assert s[0] == a[0];
      assert s[1..] == a[1..] + b;
      WithoutAppend(a[1..], b, c);
      if a[0] != c {
        Assoc3([a[0]], Without(a[1..], c), Without(b, c));
      }
    }
  }

  lemma Assoc3(x: string, y: string, z: string)
    ensures x + (y + z) == (x + y) + z
  {
  }

  /** A `\s`-free prefix followed by a `\s` character (or nothing) is exactly the span. */
  lemma {:induction false} SpanOfPrefix(a: string, b: string)
    requires forall k :: 0 <= k < |a| ==> !IsSpace(a[k])
    requires b == [] || IsSpace(b[0])
    ensures SpanNonSpace(a + b) == |a|
  {
    if a == [] {
      assert a + b == b;
    } else {
      SpanOfPrefix(a[1..], b);
      assert (a + b)[1..] == a[1..] + b;
    }
  }

  /** A single `\s`-free token splits into itself. */
  lemma SplitTwoOfToken(a: string)
    requires a != [] && forall k :: 0 <= k < |a| ==> !IsSpace(a[k])
    ensures SplitTwo(a) == [a]
  {
    SpanOfPrefix(a, []);
    assert a + [] == a;
    assert a[|a|..] == [] && a[..|a|] == a;
  }

  /** A token, one space and a remainder that starts with a non-`\s` character split into the two. */
  lemma SplitTwoOfJoin(a: string, b: string)
    requires a != [] && forall k :: 0 <= k < |a| ==> !IsSpace(a[k])
    requires b != [] && !IsSpace(b[0])
    ensures SplitTwo(a + [' '] + b) == [a, b]
  {
    var s := a + [' '] + b;
    assert s == a + ([' '] + b);
    assert s[0] == a[0];
    SplitTwoPieces(s);
    assert TrimStart(s, Space) == s;
    SpanOfPrefix(a, [' '] + b);
    assert s[..|a|] == a && s[|a|..] == [' '] + b;
    TrimStartAfterSpace(b);
  }

  /**
   * Collapsing then splitting a string with no `\s` at either end gives its
   * first token and, when there is more, the collapsed remainder after the
   * first whitespace run; that remainder keeps the string's last character.
   */
  lemma SplitTwoOfCollapsed(t: string)
    requires t != [] && !IsSpace(t[0]) && !IsSpace(t[|t| - 1])
    ensures var i := SpanNonSpace(t);
      && 0 < i
      && (i == |t| ==> SplitTwo(CollapseSpaces(t)) == [t])
      && (i < |t| ==>
            var r := CollapseSpaces(TrimStart(t[i..], Space));
            && SplitTwo(CollapseSpaces(t)) == [t[..i], r]
            && r[|r| - 1] == t[|t| - 1])
  {
    var i := SpanNonSpace(t);
    if i == |t| {
      SplitTwoOfCollapsedToken(t);
    } else {
      SplitTwoOfCollapsedTwo(t);
    }
  }

  lemma SplitTwoOfCollapsedToken(t: string)
    requires t != [] && SpanNonSpace(t) == |t|
    ensures SplitTwo(CollapseSpaces(t)) == [t]
  {
    CollapseAtFirstSpace(t);
    PrefixBeforeSpan(t);
    assert t[..|t|] == t;
    SplitTwoOfToken(t);
  }

  lemma SplitTwoOfCollapsedTwo(t: string)
    requires t != [] && !IsSpace(t[0]) && !IsSpace(t[|t| - 1])
    requires SpanNonSpace(t) < |t|
    ensures var i := SpanNonSpace(t);
      var r := CollapseSpaces(TrimStart(t[i..], Space));
      SplitTwo(CollapseSpaces(t)) == [t[..i], r] && r[|r| - 1] == t[|t| - 1]
  {
    var i := SpanNonSpace(t);
    var r := CollapseSpaces(TrimStart(t[i..], Space));
    CollapseAtFirstSpace(t);
    assert CollapseSpaces(t) == t[..i] + [' '] + r;
    CollapsedRemainder(t[i..]);
    assert t[i..][|t[i..]| - 1] == t[|t| - 1];
    PrefixBeforeSpan(t);
    SplitTwoOfJoin(t[..i], r);
  }

  /** The collapsed remainder after a `\s` run starts with a non-`\s` character and keeps the last one. */
  lemma CollapsedRemainder(s: string)
    requires s != [] && !IsSpace(s[|s| - 1])
    ensures var r := CollapseSpaces(TrimStart(s, Space));
      r != [] && !IsSpace(r[0]) && r[|r| - 1] == s[|s| - 1]
  {
    LastSurvivesTrimStart(s);
  }

  lemma PrefixBeforeSpan(t: string)
    ensures forall k :: 0 <= k < |t[..SpanNonSpace(t)]| ==> !IsSpace(t[..SpanNonSpace(t)][k])
  {
  }

  /** Trimming leading `\s` from a string ending in a non-`\s` character keeps that last character. */
  lemma LastSurvivesTrimStart(s: string)
    requires s != [] && !IsSpace(s[|s| - 1])
    ensures TrimStart(s, Space) != [] && TrimStart(s, Space)[|TrimStart(s, Space)| - 1] == s[|s| - 1]
  {
  }

  /** Trimming the `\s` run of a single space in front of a string that does not start with `\s`. */
  lemma TrimStartAfterSpace(b: string)
    requires b == [] || !IsSpace(b[0])
    ensures TrimStart([' '] + b, Space) == b
  {
    assert ([' '] + b)[1..] == b;
  }

  /** Text before the first opening bracket passes through the bracket removal unchanged. */
  lemma {:induction false} StripGroupsPlainPrefix(a: string, b: string)
    requires forall k :: 0 <= k < |a| ==> a[k] != '(' && a[k] != '['
    ensures StripGroups(a + b) == a + StripGroups(b)
    decreases |a|
  {
    if a != [] {
      var s := a + b;
      assert s[0] == a[0];
      assert s[1..] == a[1..] + b;
      assert StripGroups(s) == [a[0]] + StripGroups(a[1..] + b);
      StripGroupsPlainPrefix(a[1..], b);
      assert [a[0]] + (a[1..] + StripGroups(b)) == ([a[0]] + a[1..]) + StripGroups(b);
      assert [a[0]] + a[1..] == a;
    } else {
      assert a + b == b;
    }
  }

  /** A square-bracketed group without a closing bracket inside is removed whole. */
  lemma StripGroupsSquare(g: string, b: string)
    requires ']' !in g
    ensures StripGroups(['['] + g + [']'] + b) == StripGroups(b)
  {
    var s := ['['] + g + [']'] + b;
    var t := s[1..];
    assert t == g + [']'] + b;
    assert t[|g|] == ']';
    assert forall k :: 0 <= k < |g| ==> t[k] == g[k];
    assert IndexOf(t, ']') == |g|;
    assert s[|g| + 2..] == b;
  }

  /** A parenthesised group without a closing parenthesis inside is removed whole. */
  lemma StripGroupsParen(g: string, b: string)
    requires ')' !in g
    ensures StripGroups(['('] + g + [')'] + b) == StripGroups(b)
  {
    var s := ['('] + g + [')'] + b;
    var t := s[1..];
    assert t == g + [')'] + b;
    assert t[|g|] == ')';
    assert forall k :: 0 <= k < |g| ==> t[k] == g[k];
    assert IndexOf(t, ')') == |g|;
    assert s[|g| + 2..] == b;
  }

  /** An opening parenthesis with no closing one after it stays. */
  lemma StripGroupsUnclosedParen(g: string)
    requires ')' !in g
    ensures StripGroups(['('] + g) == ['('] + StripGroups(g)
  {
    var s := ['('] + g;
    assert s[1..] == g;
    assert IndexOf(g, ')') == |g|;
  }

  /** An opening square bracket with no closing one after it stays. */
  lemma StripGroupsUnclosedSquare(g: string)
    requires ']' !in g
    ensures StripGroups(['['] + g) == ['['] + StripGroups(g)
  {
    var s := ['['] + g;
    assert s[1..] == g;
    assert IndexOf(g, ']') == |g|;
  }

  /** Putting a character in front keeps a string single-spaced unless it starts a second space. */
  lemma ConsSingleSpaced(c: char, r: string)
    requires SingleSpaced(r)
    requires IsSpace(c) ==> c == ' ' && (r == [] || !IsSpace(r[0]))
    ensures SingleSpaced([c] + r)
  {
    var t := [c] + r;
    forall k | 0 < k < |t| ensures t[k] == r[k - 1] {
    }
  }

  /** Collapsing leaves only single plain spaces between the other characters. */
  lemma {:induction false} CollapseSpacesShape(s: string)
    ensures SingleSpaced(CollapseSpaces(s))
    decreases |s|
  {
    if s != [] {
      if IsSpace(s[0]) {
        var rest := TrimStart(s, Space);
        CollapseSpacesShape(rest);
        ConsSingleSpaced(' ', CollapseSpaces(rest));
      } else {
        CollapseSpacesShape(s[1..]);
        ConsSingleSpaced(s[0], CollapseSpaces(s[1..]));
      }
    }
  }

  /** A single-spaced string stays single-spaced without its first character. */
  lemma SingleSpacedTail(s: string)
    requires s != [] && SingleSpaced(s)
    ensures SingleSpaced(s[1..])
  {
    var t := s[1..];
    forall j, k | 0 <= j && k == j + 1 && k < |t|
      ensures !(IsSpace(t[j]) && IsSpace(t[k]))
    {
      assert t[j] == s[j + 1] && t[k] == s[k + 1];
    }
  }

  /** Collapsing leaves a single-spaced string as it is. */
  lemma {:induction false} CollapseOfSingleSpaced(s: string)
    requires SingleSpaced(s)
    ensures CollapseSpaces(s) == s
    decreases |s|
  {
    if s != [] {
      SingleSpacedTail(s);
      CollapseOfSingleSpaced(s[1..]);
      if IsSpace(s[0]) {
        assert s[0] == ' ';
        if |s| > 1 {
          assert !IsSpace(s[1]);
          assert s[1..][0] == s[1];
        }
        assert TrimStart(s[1..], Space) == s[1..];
        assert TrimStart(s, Space) == s[1..];
      }
      assert [s[0]] + s[1..] == s;
    }
  }

  /** The strings collapsing does not change are exactly the single-spaced ones; so collapsing is idempotent. */
  lemma CollapseFixedPoints(s: string)
    ensures CollapseSpaces(s) == s <==> SingleSpaced(s)
    ensures CollapseSpaces(CollapseSpaces(s)) == CollapseSpaces(s)
  {
    CollapseSpacesShape(s);
    if SingleSpaced(s) {
      CollapseOfSingleSpaced(s);
    }
    CollapseOfSingleSpaced(CollapseSpaces(s));
  }

  /** Any slice of a single-spaced string is single-spaced. */
  lemma SingleSpacedSlice(s: string, i: nat, j: nat)
    requires SingleSpaced(s) && i <= j <= |s|
    ensures SingleSpaced(s[i..j])
  {
    var t := s[i..j];
    forall k | 0 <= k < |t| ensures t[k] == s[i + k] {
    }
  }

  /** Trimming keeps a string single-spaced. */
  lemma TrimKeepsSingleSpaced(s: string, cls: CharClass)
    requires SingleSpaced(s)
    ensures SingleSpaced(Trim(s, cls))
  {
    var t := TrimStart(s, cls);
    SingleSpacedSlice(s, |s| - |t|, |s|);
    assert s[|s| - |t|..|s|] == t;
    var r := TrimEnd(t, cls);
    SingleSpacedSlice(t, 0, |r|);
    assert t[0..|r|] == r;
  }
}
