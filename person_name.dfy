/**
 * The PersonName object: two readonly fields and six lazily filled caches
 * of derived formats. Each accessor fills its cache on first use and
 * returns the cached string afterwards; `Valid` says that a filled cache
 * always holds the format computed from the two fields.
 */
module PersonNames {
  import opened Wrappers
  import opened Strings
  import NameFormats

  class PersonName {
    const first: string
    const last: Option<string>

    var abbreviatedCache: Option<string>
    var familiarCache: Option<string>
    var fullCache: Option<string>
    var initialsCache: Option<string>
    var mentionableCache: Option<string>
    var sortedCache: Option<string>

    /** The two fields as a value. */
    function Value(): NameFormats.Name {
      NameFormats.Name(first, last)
    }

    /** The fields satisfy the constructor's guarantees and every filled cache holds its format. */
    ghost predicate Valid()
      reads this
    {
      var v := Value();
      && NameFormats.ValidName(v)
      && (abbreviatedCache.Some? ==> abbreviatedCache.value == NameFormats.Abbreviated(v))
      && (familiarCache.Some? ==> familiarCache.value == NameFormats.Familiar(v))
      && (fullCache.Some? ==> fullCache.value == NameFormats.Full(v))
      && (initialsCache.Some? ==> initialsCache.value == NameFormats.Initials(v))
      && (mentionableCache.Some? ==> mentionableCache.value == NameFormats.Mentionable(v))
      && (sortedCache.Some? ==> sortedCache.value == NameFormats.Sorted(v))
    }

    ghost predicate CachesEmpty()
      reads this
    {
      && abbreviatedCache.None? && familiarCache.None? && fullCache.None?
      && initialsCache.None? && mentionableCache.None? && sortedCache.None?
    }

    /** Allocation of an already checked name with empty caches; New is the constructor's checked entry point. */
    constructor (name: NameFormats.Name)
      requires NameFormats.ValidName(name)
      ensures Value() == name
      ensures Valid() && CachesEmpty()
    {
      first := name.first;
      last := name.last;
      abbreviatedCache, familiarCache, fullCache := None, None, None;
      initialsCache, mentionableCache, sortedCache := None, None, None;
    }

    /** `new PersonName(first, last)`: throws for a blank first name, otherwise a fresh object with empty caches. */
    static method New(firstName: string, lastName: Option<string> := None) returns (r: Result<PersonName>)
      ensures r.Failure? <==> IsBlank(firstName)
      ensures r.Failure? ==> r.error == InvalidArgument("First name is required.")
      ensures r.Success? ==> fresh(r.value) && r.value.Valid() && r.value.CachesEmpty()
      ensures r.Success? ==> Success(r.value.Value()) == NameFormats.Make(firstName, lastName)
    {
      var made := NameFormats.Make(firstName, lastName);
      if made.Failure? {
        r := Failure(made.error);
      } else {
        var p := new PersonName(made.value);
        r := Success(p);
      }
    }

    /** PersonName::fromFull: null for a blank string, otherwise a fresh object holding the parsed name. */
    static method FromFull(fullName: string) returns (r: Option<PersonName>)
      ensures r.None? <==> IsBlank(fullName)
      ensures r.Some? ==> fresh(r.value) && r.value.Valid() && r.value.CachesEmpty()
      ensures r.Some? ==> Some(r.value.Value()) == NameFormats.FromFull(fullName)
    {
      var parsed := NameFormats.FromFull(fullName);
      if parsed.None? {
        r := None;
      } else {
        var p := new PersonName(parsed.value);
        r := Some(p);
      }
    }

    method Abbreviated() returns (r: string)
      requires Valid()
      modifies this`abbreviatedCache
      ensures Valid()
      ensures r == NameFormats.Abbreviated(Value()) && abbreviatedCache == Some(r)
    {
      if abbreviatedCache.None? {
        abbreviatedCache := Some(NameFormats.Abbreviated(Value()));
      }
      r := abbreviatedCache.value;
    }

    /** Two names are equal when both fields are; the caches play no part. */
    function Equals(other: PersonName): (r: bool)
      ensures r <==> Value() == other.Value()
    {
      first == other.first && last == other.last
    }

    method Familiar() returns (r: string)
      requires Valid()
      modifies this`familiarCache
      ensures Valid()
      ensures r == NameFormats.Familiar(Value()) && familiarCache == Some(r)
    {
      if familiarCache.None? {
        familiarCache := Some(NameFormats.Familiar(Value()));
      }
      r := familiarCache.value;
    }

    method Full() returns (r: string)
      requires Valid()
      modifies this`fullCache
      ensures Valid()
      ensures r == NameFormats.Full(Value()) && fullCache == Some(r)
    {
      if fullCache.None? {
        fullCache := Some(NameFormats.Full(Value()));
      }
      r := fullCache.value;
    }

    /** On a cache miss this goes through Full(), which fills the full-name cache too. */
    method Initials() returns (r: string)
      requires Valid()
      modifies this`initialsCache, this`fullCache
      ensures Valid()
      ensures r == NameFormats.Initials(Value()) && initialsCache == Some(r)
      ensures fullCache == if old(initialsCache).None? then Some(NameFormats.Full(Value())) else old(fullCache)
    {
      if initialsCache.None? {
        var full := Full();
        var cleaned := StripGroups(full);
        initialsCache := Some(WordInitials(cleaned));
      }
      r := initialsCache.value;
    }

    /** On a cache miss this goes through Familiar(), which fills the familiar-name cache too. */
    method Mentionable() returns (r: string)
      requires Valid()
      modifies this`mentionableCache, this`familiarCache
      ensures Valid()
      ensures r == NameFormats.Mentionable(Value()) && mentionableCache == Some(r)
      ensures familiarCache == if old(mentionableCache).None? then Some(NameFormats.Familiar(Value())) else old(familiarCache)
    {
      if mentionableCache.None? {
        var familiar := Familiar();
        var withoutDot := if last.None? then familiar else familiar[..|familiar| - 1];
        mentionableCache := Some(Lower(Without(withoutDot, ' ')));
      }
      r := mentionableCache.value;
    }

    /**
     * possessive(method = 'full'): refuses an unknown format before touching
     * any cache; otherwise reads the chosen format through its accessor,
     * which fills that accessor's caches.
     */
    method Possessive(format: string := "full") returns (r: Result<string>)
      requires Valid()
      modifies this`abbreviatedCache, this`fullCache, this`initialsCache, this`sortedCache
      ensures Valid()
      ensures r == NameFormats.Possessive(Value(), format)
      ensures abbreviatedCache == if format == "abbreviated" then Some(NameFormats.Abbreviated(Value())) else old(abbreviatedCache)
      ensures sortedCache == if format == "sorted" then Some(NameFormats.Sorted(Value())) else old(sortedCache)
      ensures initialsCache == if format == "initials" then Some(NameFormats.Initials(Value())) else old(initialsCache)
      ensures fullCache ==
        if format == "full" || (format == "initials" && old(initialsCache).None?)
        then Some(NameFormats.Full(Value())) else old(fullCache)
    {
      if format !in NameFormats.PossessiveMethods {
        return Failure(InvalidArgument("Please provide a valid method"));
      }
      var name := Chosen(format);
      var suffix := if Lower(NameFormats.LastChar(name)) == "s" then "'" else "'s";
      r := Success(name + suffix);
    }

    /** The `match` inside possessive: the chosen format, read through its accessor. */
    method Chosen(format: string) returns (name: string)
      requires Valid() && format in NameFormats.PossessiveMethods
      modifies this`abbreviatedCache, this`fullCache, this`initialsCache, this`sortedCache
      ensures Valid()
      ensures name == NameFormats.PossessiveBase(Value(), format)
      ensures abbreviatedCache == if format == "abbreviated" then Some(NameFormats.Abbreviated(Value())) else old(abbreviatedCache)
      ensures sortedCache == if format == "sorted" then Some(NameFormats.Sorted(Value())) else old(sortedCache)
      ensures initialsCache == if format == "initials" then Some(NameFormats.Initials(Value())) else old(initialsCache)
      ensures fullCache ==
        if format == "full" || (format == "initials" && old(initialsCache).None?)
        then Some(NameFormats.Full(Value())) else old(fullCache)
    {
      if format == "abbreviated" {
        name := Abbreviated();
      } else if format == "first" {
        name := first;
      } else if format == "full" {
        name := Full();
      } else if format == "initials" {
        name := Initials();
      } else if format == "last" {
        name := last.GetOr(first);
      } else {
        name := Sorted();
      }
    }

    method Sorted() returns (r: string)
      requires Valid()
      modifies this`sortedCache
      ensures Valid()
      ensures r == NameFormats.Sorted(Value()) && sortedCache == Some(r)
    {
      if sortedCache.None? {
        sortedCache := Some(NameFormats.Sorted(Value()));
      }
      r := sortedCache.value;
    }

    /** jsonSerialize(): the full name. */
    method JsonSerialize() returns (r: string)
      requires Valid()
      modifies this`fullCache
      ensures Valid()
      ensures r == NameFormats.Full(Value()) && fullCache == Some(r)
    {
      r := Full();
    }

    /** __toString(): the full name. */
    method ToString() returns (r: string)
      requires Valid()
      modifies this`fullCache
      ensures Valid()
      ensures r == NameFormats.Full(Value()) && fullCache == Some(r)
    {
      r := Full();
    }
  }
}
