/**
 * The value part of PersonName: a first name and an optional last name, the
 * checks its constructor makes, the full-name parser and the derived
 * formats, each a function of the two fields.
 */
module NameFormats {
  import opened Wrappers
  import opened Strings

  /** The two readonly fields of a PersonName; `last` is PHP's `null|string`. */
  datatype Name = Name(first: string, last: Option<string>)

  /** What the constructor guarantees of every instance: both fields trimmed, first non-empty, last never "". */
  predicate ValidName(n: Name) {
    && n.first != [] && MbTrim(n.first) == n.first
    && (n.last.Some? ==> n.last.value != [] && MbTrim(n.last.value) == n.last.value)
  }

  /**
   * The constructor's checks: a first name that trims to nothing is refused;
   * otherwise both names are trimmed and a missing or blank last name becomes null.
   */
  function Make(firstName: string, lastName: Option<string>): (r: Result<Name>)
    ensures r.Failure? <==> IsBlank(firstName)
    ensures r.Failure? ==> r.error == InvalidArgument("First name is required.")
    ensures r.Success? ==> ValidName(r.value) && r.value.first == MbTrim(firstName)
    ensures r.Success? ==> (r.value.last.None? <==> lastName.None? || IsBlank(lastName.value))
    ensures r.Success? && r.value.last.Some? ==> r.value.last.value == MbTrim(lastName.value)
  {
    if IsBlank(firstName) then
      Failure(InvalidArgument("First name is required."))
    else
      var last := if lastName.Some? && !IsBlank(lastName.value) then Some(MbTrim(lastName.value)) else None;
      Success(Name(MbTrim(firstName), last))
  }

  /** Constructing from the fields of a valid name gives that name back. */
  lemma MakeOfValid(n: Name)
    requires ValidName(n)
    ensures Make(n.first, n.last) == Success(n)
  {
  }

  /**
   * fromFull: null for a blank string; otherwise the trimmed string with its
   * whitespace runs collapsed is split once, the first piece becoming the
   * first name and the remainder (if any) the last name.
   */
  function FromFull(fullName: string): (r: Option<Name>)
    ensures r.None? <==> IsBlank(fullName)
    ensures r.Some? ==> ValidName(r.value)
    ensures r.Some? ==> forall k :: 0 <= k < |r.value.first| ==> !IsSpace(r.value.first[k])
  {
    if IsBlank(fullName) then None
    else
      var parts := SplitTwo(CollapseSpaces(MbTrim(fullName)));
      FromFullFirstPiece(fullName);
      Some(Make(parts[0], if |parts| == 2 then Some(parts[1]) else None).value)
  }

  /** The first piece of a non-blank full name is never blank, so fromFull never throws. */
  lemma FromFullFirstPiece(fullName: string)
    requires !IsBlank(fullName)
    ensures var parts := SplitTwo(CollapseSpaces(MbTrim(fullName)));
      && parts != [] && !IsBlank(parts[0])
      && forall k :: 0 <= k < |MbTrim(parts[0])| ==> !IsSpace(MbTrim(parts[0])[k])
  {
    var t := MbTrim(fullName);
    var c := CollapseSpaces(t);
    assert !In(MbTrimSet, t[0]);
    assert c[0] == t[0];
    var parts := SplitTwo(c);
    assert parts[0][0] == t[0];
    TrimKeepsNoSpace(parts[0], MbTrimSet);
  }

  /** mb_substr(s, 0, 1): the first character, or "" for an empty string. */
  function Initial(s: string): string {
    if s == [] then [] else [s[0]]
  }

  /** mb_substr(s, -1): the last character, or "" for an empty string. */
  function LastChar(s: string): string {
    if s == [] then [] else [s[|s| - 1]]
  }

  /** "Jason Fried". */
  function Full(n: Name): string {
    match n.last
    case None => n.first
    case Some(l) => n.first + " " + l
  }

  /** "Fried, Jason". */
  function Sorted(n: Name): string {
    match n.last
    case None => n.first
    case Some(l) => l + ", " + n.first
  }

  /** "J. Fried". */
  function Abbreviated(n: Name): string {
    match n.last
    case None => n.first
    case Some(l) => Initial(n.first) + ". " + l
  }

  /** "Jason F.". */
  function Familiar(n: Name): string {
    match n.last
    case None => n.first
    case Some(l) => n.first + " " + Initial(l) + "."
  }

  /** The initials of the full name once bracketed and parenthesised groups are removed. */
  function Initials(n: Name): string {
    WordInitials(StripGroups(Full(n)))
  }

  /** The familiar name without its final dot, with spaces removed, lower-cased. */
  function Mentionable(n: Name): string {
    var familiar := Familiar(n);
    var withoutDot := if n.last.None? then familiar else familiar[..|familiar| - 1];
    Lower(Without(withoutDot, ' '))
  }

  /** The formats possessive accepts. */
  const PossessiveMethods: seq<string> := ["full", "first", "last", "abbreviated", "sorted", "initials"]

  /** The string possessive decorates; "last" falls back to the first name. */
  function PossessiveBase(n: Name, format: string): string
    requires format in PossessiveMethods
  {
    if format == "abbreviated" then Abbreviated(n)
    else if format == "first" then n.first
    else if format == "full" then Full(n)
    else if format == "initials" then Initials(n)
    else if format == "last" then n.last.GetOr(n.first)
    else Sorted(n)
  }

  /** possessive(method): the chosen format followed by "'" or "'s". */
  function Possessive(n: Name, format: string): (r: Result<string>)
    ensures r.Failure? <==> format !in PossessiveMethods
    ensures r.Failure? ==> r.error == InvalidArgument("Please provide a valid method")
  {
    if format !in PossessiveMethods then
      Failure(InvalidArgument("Please provide a valid method"))
    else
      var name := PossessiveBase(n, format);
      var suffix := if Lower(LastChar(name)) == "s" then "'" else "'s";
      Success(name + suffix)
  }

  /**
   * fromFull in other words: the first name is the trimmed string's first
   * `\s`-free token (trimmed once more by the constructor), and the last name
   * is everything after the first whitespace run, with its own runs collapsed.
   */
  lemma FromFullSplitsAtFirstSpace(fullName: string)
    requires !IsBlank(fullName)
    ensures var t := MbTrim(fullName);
      var i := SpanNonSpace(t);
      FromFull(fullName) == Some(Name(MbTrim(t[..i]),
        if i == |t| then None else Some(MbTrim(CollapseSpaces(TrimStart(t[i..], Space))))))
  {
    var t := MbTrim(fullName);
    var i := SpanNonSpace(t);
    assert !In(MbTrimSet, t[0]) && !In(MbTrimSet, t[|t| - 1]);
    SplitTwoOfCollapsed(t);
    assert t[..i][0] == t[0];
    var parts := SplitTwo(CollapseSpaces(t));
    assert FromFull(fullName) == Some(Make(parts[0], if |parts| == 2 then Some(parts[1]) else None).value);
    if i < |t| {
      var r := CollapseSpaces(TrimStart(t[i..], Space));
      assert r[|r| - 1] == t[|t| - 1];
      assert !IsBlank(r);
      assert parts == [t[..i], r];
      assert Make(t[..i], Some(r)).value == Name(MbTrim(t[..i]), Some(MbTrim(r)));
    } else {
      assert parts == [t];
      assert t[..i] == t;
      assert Make(t, None).value == Name(MbTrim(t), None);
    }
  }

  /** The ends of a valid name's fields are not trimmable, so they are not `\s` either. */
  lemma ValidNameEnds(n: Name)
    requires ValidName(n)
    ensures !In(MbTrimSet, n.first[0]) && !In(MbTrimSet, n.first[|n.first| - 1])
    ensures n.last.Some? ==> !In(MbTrimSet, n.last.value[0]) && !In(MbTrimSet, n.last.value[|n.last.value| - 1])
  {
  }

  /**
   * full() and fromFull() are inverse when the first name is one `\s`-free
   * token and the last name has no whitespace run other than single spaces.
   */
  lemma FullRoundTrip(n: Name)
    requires ValidName(n)
    requires forall k :: 0 <= k < |n.first| ==> !IsSpace(n.first[k])
    requires n.last.Some? ==> SingleSpaced(n.last.value)
    ensures FromFull(Full(n)) == Some(n)
  {
    var f := n.first;
    ValidNameEnds(n);
    if n.last.Some? {
      CollapseOfSingleSpaced(n.last.value);
    }
    match n.last
    case None =>
      SpanOfPrefix(f, []);
      assert f + [] == f && f[..|f|] == f;
      FromFullSplitsAtFirstSpace(f);
    case Some(l) =>
      var s := f + " " + l;
      assert s == f + ([' '] + l);
      assert s[0] == f[0] && s[|s| - 1] == l[|l| - 1];
      assert MbTrim(s) == s;
      SpanOfPrefix(f, [' '] + l);
      assert s[..|f|] == f && s[|f|..] == [' '] + l;
      TrimStartAfterSpace(l);
      FromFullSplitsAtFirstSpace(s);
  }

  /**
   * Conversely, whatever fromFull() returns has a `\s`-free first name and a
   * single-spaced last name, so only such names can survive the round trip.
   */
  lemma FromFullShape(fullName: string)
    requires !IsBlank(fullName)
    ensures var n := FromFull(fullName).value;
      && (forall k :: 0 <= k < |n.first| ==> !IsSpace(n.first[k]))
      && (n.last.Some? ==> SingleSpaced(n.last.value))
  {
    var t := MbTrim(fullName);
    var i := SpanNonSpace(t);
    FromFullSplitsAtFirstSpace(fullName);
    if i < |t| {
      var c := CollapseSpaces(TrimStart(t[i..], Space));
      CollapseSpacesShape(TrimStart(t[i..], Space));
      TrimKeepsSingleSpaced(c, MbTrimSet);
    }
  }

  /** full() then fromFull() gives a valid name back exactly when its first name is `\s`-free and its last name single-spaced. */
  lemma FullRoundTripIff(n: Name)
    requires ValidName(n)
    ensures FromFull(Full(n)) == Some(n) <==>
      (forall k :: 0 <= k < |n.first| ==> !IsSpace(n.first[k])) && (n.last.Some? ==> SingleSpaced(n.last.value))
  {
    if (forall k :: 0 <= k < |n.first| ==> !IsSpace(n.first[k])) && (n.last.Some? ==> SingleSpaced(n.last.value)) {
      FullRoundTrip(n);
    } else if FromFull(Full(n)) == Some(n) {
      FromFullShape(Full(n));
      assert false;
    }
  }

  /** A first name holding white space does not survive full() then fromFull(): it is cut at the space. */
  lemma FirstWithSpaceNotRecovered(n: Name, k: nat)
    requires ValidName(n)
    requires k < |n.first| && IsSpace(n.first[k])
    ensures FromFull(Full(n)).Some? && FromFull(Full(n)).value.first != n.first
  {
    ValidNameEnds(n);
    var s := Full(n);
    assert s[0] == n.first[0];
    assert !IsBlank(s);
  }

  /** sorted() rearranges full(): the same characters, plus the comma when there is a last name. */
  lemma SortedRearrangesFull(n: Name)
    ensures multiset(Sorted(n)) == multiset(Full(n)) + if n.last.Some? then multiset{','} else multiset{}
    ensures Sorted(n) == Full(n) <==> n.last.None?
  {
    if n.last.Some? {
      var l := n.last.value;
      assert Full(n) == n.first + [' '] + l;
      assert Sorted(n) == l + [','] + [' '] + n.first;
      assert |Sorted(n)| == |Full(n)| + 1;
    }
  }

  /**
   * familiar() is full() cut just after the last name's initial, followed by
   * a dot; abbreviated() is full() with the first name cut to its initial and a dot.
   */
  lemma FamiliarAndAbbreviatedFromFull(n: Name)
    requires ValidName(n)
    ensures n.last.None? ==> Familiar(n) == Abbreviated(n) == Full(n) == n.first
    ensures n.last.Some? ==> Familiar(n) == Full(n)[..|n.first| + 2] + "."
    ensures n.last.Some? ==> Abbreviated(n) == [n.first[0]] + "." + Full(n)[|n.first|..]
  {
    if n.last.Some? {
      var f, l := n.first, n.last.value;
      var s := Full(n);
      assert s == f + ([' '] + l);
      assert s[..|f| + 2] == f + [' '] + [l[0]];
      assert s[|f|..] == [' '] + l;
    }
  }

  /**
   * Without brackets or parentheses, the initials are those of the first name
   * followed by those of the last name; a one-word first and last name give
   * their two first characters.
   */
  lemma InitialsOfPlainName(n: Name)
    requires forall k :: 0 <= k < |n.first| ==> n.first[k] != '(' && n.first[k] != '['
    requires n.last.Some? ==> forall k :: 0 <= k < |n.last.value| ==> n.last.value[k] != '(' && n.last.value[k] != '['
    ensures Initials(n) == WordInitials(n.first) + if n.last.Some? then WordInitials(n.last.value) else []
    ensures n.first != [] && (forall k :: 0 <= k < |n.first| ==> IsWordChar(n.first[k]))
      && n.last.Some? && n.last.value != [] && (forall k :: 0 <= k < |n.last.value| ==> IsWordChar(n.last.value[k]))
      ==> Initials(n) == [n.first[0], n.last.value[0]]
  {
    var f := n.first;
    match n.last
    case None =>
      assert StripGroups(f) == f;
      assert f + [] == f;
    case Some(l) =>
      var s := f + " " + l;
      forall k | 0 <= k < |s| ensures s[k] != '(' && s[k] != '[' {
        if k > |f| {
          assert s[k] == l[k - |f| - 1];
        }
      }
      assert StripGroups(s) == s;
      WordInitialsSplit(f, ' ', l, false);
      if f != [] && (forall k :: 0 <= k < |f| ==> IsWordChar(f[k])) && l != [] && (forall k :: 0 <= k < |l| ==> IsWordChar(l[k])) {
        WordInitialsOfWord(f);
        WordInitialsOfWord(l);
      }
  }

  /**
   * mentionable() is the first name with its spaces removed, followed by the
   * last name's initial, all lower-cased.
   */
  lemma MentionableIsFirstAndLastInitial(n: Name)
    requires ValidName(n)
    ensures Mentionable(n) == Lower(Without(n.first, ' ') + Initial(n.last.GetOr([])))
    ensures ' ' !in Mentionable(n)
  {
    var f := n.first;
    match n.last
    case None =>
      assert Without(f, ' ') + [] == Without(f, ' ');
    case Some(l) =>
      ValidNameEnds(n);
      var familiar := Familiar(n);
      assert familiar[..|familiar| - 1] == f + [' '] + [l[0]];
      WithoutAppend(f + [' '], [l[0]], ' ');
      WithoutAppend(f, [' '], ' ');
      assert Without([' '], ' ') == [];
      assert Without([l[0]], ' ') == [l[0]];
      assert Without(f, ' ') + [] == Without(f, ' ');
  }

  /**
   * possessive(): the chosen format followed by an apostrophe when it ends in
   * "s" or "S", and by "'s" otherwise (an empty format also gets "'s").
   */
  lemma PossessiveSuffixRule(n: Name, format: string)
    requires format in PossessiveMethods
    ensures var base := PossessiveBase(n, format);
      Possessive(n, format) ==
        Success(base + if base != [] && base[|base| - 1] in {'s', 'S'} then "'" else "'s")
  {
    var base := PossessiveBase(n, format);
    if base != [] {
      var c := base[|base| - 1];
      assert Lower([c]) == [ToLower(c)];
      assert [ToLower(c)] == "s" <==> ToLower(c) == 's';
    }
  }

  /** possessive("last") falls back to the first name when there is no last name. */
  lemma PossessiveLastFallsBackToFirst(n: Name)
    requires n.last.None?
    ensures Possessive(n, "last") == Possessive(n, "first")
  {
    assert "last" in PossessiveMethods && "first" in PossessiveMethods;
  }
}
