/**
 * The documented behaviour on concrete names, derived from the general
 * lemmas about the formats.
 */
module Scenarios {
  import opened Wrappers
  import opened Strings
  import opened NameFormats

  lemma PossessiveOfNameEndingInS()
    ensures Possessive(Name("Foo", Some("Bars")), "full") == Success("Foo Bars'")
    ensures Possessive(Name("Foo", Some("Bar")), "full") == Success("Foo Bar's")
  {
    var a, b := Name("Foo", Some("Bars")), Name("Foo", Some("Bar"));
    assert "full" in PossessiveMethods;
    PossessiveSuffixRule(a, "full");
    PossessiveSuffixRule(b, "full");
    assert PossessiveBase(a, "full") == "Foo Bars";
    assert PossessiveBase(b, "full") == "Foo Bar";
    assert "Foo Bars"[7] == 's' && "Foo Bar"[6] == 'r';
    assert "Foo Bars" + "'" == "Foo Bars'";
    assert "Foo Bar" + "'s" == "Foo Bar's";
  }

  /** A non-empty string with no trimmable character at its ends is its own trim. */
  lemma PlainIsTrimmed(s: string)
    requires s != [] && !In(MbTrimSet, s[0]) && !In(MbTrimSet, s[|s| - 1])
    ensures MbTrim(s) == s && !IsBlank(s)
  {
  }

  lemma LowerFooB()
    ensures Lower("FooB") == "foob"
  {
    var r := Lower("FooB");
    assert r[0] == ToLower('F') == 'f';
    assert r[3] == ToLower('B') == 'b';
  }

  lemma MentionableOfFooBar(n: Name)
    requires n == Name("Foo", Some("Bar"))
    ensures Mentionable(n) == "foob"
  {
    PlainIsTrimmed("Foo");
    PlainIsTrimmed("Bar");
    MentionableIsFirstAndLastInitial(n);
    FooWithoutSpaces();
    assert Initial("Bar") == "B";
    assert "Foo" + "B" == "FooB";
    LowerFooB();
  }

  /** fromFull("Foo Bar") parses into first name Foo and last name Bar. */
  lemma FooBarParsed(n: Name, fullName: string)
    requires n == Name("Foo", Some("Bar")) && fullName == "Foo Bar"
    ensures FromFull(fullName) == Some(n)
  {
    FooBarShape(n);
    FullOfFooBar(n, fullName);
    FullRoundTrip(n);
  }

  /** Foo / Bar meets the conditions of the full-name round trip. */
  lemma FooBarShape(n: Name)
    requires n == Name("Foo", Some("Bar"))
    ensures ValidName(n) && n.last.Some?
    ensures forall k :: 0 <= k < |n.first| ==> !IsSpace(n.first[k])
    ensures SingleSpaced(n.last.value)
  {
    PlainIsTrimmed("Foo");
    PlainIsTrimmed("Bar");
  }

  lemma FullOfFooBar(n: Name, fullName: string)
    requires n == Name("Foo", Some("Bar")) && fullName == "Foo Bar"
    ensures Full(n) == fullName
  {
  }

  /** The mentionable name of fromFull("Foo Bar") is "foob". */
  lemma MentionableOfParsedFooBar()
    ensures FromFull("Foo Bar").Some? && Mentionable(FromFull("Foo Bar").value) == "foob"
  {
    var n := Name("Foo", Some("Bar"));
    FooBarParsed(n, "Foo Bar");
    MentionableOfFooBar(n);
  }

  lemma FooWithoutSpaces()
    ensures Without("Foo", ' ') == "Foo"
  {
  }

  lemma ConorMuirheadIsWords()
    ensures forall k :: 0 <= k < |"Conor"| ==> IsWordChar("Conor"[k])
    ensures forall k :: 0 <= k < |"Muirhead"| ==> IsWordChar("Muirhead"[k])
  {
  }

  lemma NoOpeningBracket(kept: string)
    requires kept == "Conor Muirhead "
    ensures forall k :: 0 <= k < |kept| ==> kept[k] != '(' && kept[k] != '['
  {
  }

  lemma BracketsRemoved()
    ensures StripGroups("Conor Muirhead [Basecamp]") == "Conor Muirhead "
  {
    var kept := "Conor Muirhead ";
    NoOpeningBracket(kept);
    assert ']' !in "Basecamp";
    assert "Conor Muirhead [Basecamp]" == kept + (['['] + "Basecamp" + [']']);
    StripTrailingGroup(kept, "Basecamp");
  }

  /** A closed `[...]` group after bracket-free text leaves only that text. */
  lemma StripTrailingGroup(kept: string, g: string)
    requires forall k :: 0 <= k < |kept| ==> kept[k] != '(' && kept[k] != '['
    requires ']' !in g
    ensures StripGroups(kept + (['['] + g + [']'])) == kept
  {
    var group := ['['] + g + [']'];
    StripGroupsPlainPrefix(kept, group);
    assert group == ['['] + g + [']'] + [];
    StripGroupsSquare(g, []);
    assert kept + [] == kept;
  }

  /** A trailing space adds no initial. */
  lemma WordInitialsAfterSpace(w: string)
    ensures WordInitials(w + [' '] + []) == WordInitials(w)
  {
    assert !IsWordChar(' ');
    WordInitialsSplit(w, ' ', [], false);
    assert WordInitials(w) + WordInitials([]) == WordInitials(w);
  }

  lemma InitialsOfConorMuirhead(s: string)
    requires s == "Conor Muirhead "
    ensures WordInitials(s) == "CM"
  {
    assert s == "Conor" + [' '] + ("Muirhead" + [' '] + []);
    ConorMuirheadIsWords();
    TwoWordInitials("Conor", "Muirhead");
  }

  /** Two words, each followed by one space, give their first letters. */
  lemma TwoWordInitials(a: string, b: string)
    requires a != [] && forall k :: 0 <= k < |a| ==> IsWordChar(a[k])
    requires b != [] && forall k :: 0 <= k < |b| ==> IsWordChar(b[k])
    ensures WordInitials(a + [' '] + (b + [' '] + [])) == [a[0], b[0]]
  {
    WordInitialsAfterSpace(b);
    assert !IsWordChar(' ');
    WordInitialsSplit(a, ' ', b + [' '] + [], false);
    WordInitialsOfWord(a);
    WordInitialsOfWord(b);
  }

  lemma InitialsWithBracketedSuffix(n: Name)
    requires n == Name("Conor", Some("Muirhead [Basecamp]"))
    ensures Initials(n) == "CM"
  {
    var full := Full(n);
    assert full == "Conor Muirhead [Basecamp]";
    BracketsRemoved();
    var kept := StripGroups(full);
    InitialsOfConorMuirhead(kept);
  }

  /** The last name "Muirhead [Basecamp]" has its one space alone and plain. */
  lemma MuirheadBasecampSingleSpaced(l: string)
    requires l == "Muirhead [Basecamp]"
    ensures SingleSpaced(l)
  {
    assert forall k :: 0 <= k < |l| && k != 8 ==> !IsSpace(l[k]);
  }

  /** fromFull("Conor Muirhead [Basecamp]") parses into Conor and "Muirhead [Basecamp]". */
  lemma ConorParsed(n: Name, fullName: string)
    requires n == Name("Conor", Some("Muirhead [Basecamp]")) && fullName == "Conor Muirhead [Basecamp]"
    ensures FromFull(fullName) == Some(n)
  {
    ConorShape(n);
    FullOfConor(n, fullName);
    FullRoundTrip(n);
  }

  /** Conor / "Muirhead [Basecamp]" meets the conditions of the full-name round trip. */
  lemma ConorShape(n: Name)
    requires n == Name("Conor", Some("Muirhead [Basecamp]"))
    ensures ValidName(n) && n.last.Some?
    ensures forall k :: 0 <= k < |n.first| ==> !IsSpace(n.first[k])
    ensures SingleSpaced(n.last.value)
  {
    PlainIsTrimmed("Conor");
    PlainIsTrimmed("Muirhead [Basecamp]");
    MuirheadBasecampSingleSpaced("Muirhead [Basecamp]");
  }

  lemma FullOfConor(n: Name, fullName: string)
    requires n == Name("Conor", Some("Muirhead [Basecamp]")) && fullName == "Conor Muirhead [Basecamp]"
    ensures Full(n) == fullName
  {
  }

  /** The initials of fromFull("Conor Muirhead [Basecamp]") are "CM". */
  lemma InitialsOfParsedConor()
    ensures FromFull("Conor Muirhead [Basecamp]").Some?
    ensures Initials(FromFull("Conor Muirhead [Basecamp]").value) == "CM"
  {
    var n := Name("Conor", Some("Muirhead [Basecamp]"));
    ConorParsed(n, "Conor Muirhead [Basecamp]");
    InitialsWithBracketedSuffix(n);
  }
}
