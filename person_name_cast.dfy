/**
 * The database cast: a caster bound to two column names reads a PersonName
 * out of a row's attributes and writes one back as two column values.
 * The caster has no mutable state, so it is a value here, and so is the
 * name it produces or consumes (its two fields).
 */
module PersonNameCasts {
  import opened Wrappers
  import opened Strings
  import NameFormats

  const DefaultFirstNameColumn: string := "first_name"
  const DefaultLastNameColumn: string := "last_name"

  /** The fully qualified class name of the cast, as `static::class` yields it. */
  const CastClassName: string := "HosmelQ\\NameOfPerson\\PersonNameCast"

  /** The anonymous caster class: the two column names it reads and writes. */
  datatype Caster = Caster(firstNameColumn: string, lastNameColumn: string)

  /** A row's attributes; a present key may hold SQL null. */
  type Attributes = map<string, Option<string>>

  /** What a model hands to `set`: null, a string, a PersonName, or anything else (by its debug type name). */
  datatype CastValue = Null | Str(s: string) | Person(name: NameFormats.Name) | Other(typeName: string)

  /** The `i`-th cast argument, trimmed with PHP's default trim set, or null past the end. */
  function Argument(arguments: seq<string>, i: nat): Option<string> {
    if i < |arguments| then Some(Trim(arguments[i], TrimSet)) else None
  }

  /**
   * castUsing: the first two arguments, trimmed, name the columns; a
   * missing one falls back to its default, while a present but empty one
   * is kept as the empty column name. Further arguments are ignored.
   */
  function CastUsing(arguments: seq<string>): (c: Caster)
    ensures |arguments| == 0 ==> c == Caster(DefaultFirstNameColumn, DefaultLastNameColumn)
    ensures |arguments| >= 1 ==> c.firstNameColumn == Trim(arguments[0], TrimSet)
    ensures |arguments| >= 2 ==> c.lastNameColumn == Trim(arguments[1], TrimSet)
    ensures |arguments| <= 1 ==> c.lastNameColumn == DefaultLastNameColumn
  {
    Caster(Argument(arguments, 0).GetOr(DefaultFirstNameColumn),
           Argument(arguments, 1).GetOr(DefaultLastNameColumn))
  }

  /** `$attributes[$column] ?? null`: a missing key and a stored null both read as null. */
  function Lookup(attributes: Attributes, column: string): (r: Option<string>)
    ensures r.Some? <==> column in attributes && attributes[column].Some?
    ensures r.Some? ==> r.value == attributes[column].value
  {
    if column in attributes then attributes[column] else None
  }

  /**
   * get: null when the first-name column is missing, null or blank;
   * otherwise the name built from both columns, trimmed as the PersonName
   * constructor trims.
   */
  function Get(c: Caster, attributes: Attributes): (r: Option<NameFormats.Name>)
    ensures r.None? <==> Lookup(attributes, c.firstNameColumn).None?
                         || IsBlank(Lookup(attributes, c.firstNameColumn).value)
    ensures r.Some? ==> Success(r.value) == NameFormats.Make(Lookup(attributes, c.firstNameColumn).value,
                                                             Lookup(attributes, c.lastNameColumn))
    ensures r.Some? ==> NameFormats.ValidName(r.value)
  {
    var firstName := Lookup(attributes, c.firstNameColumn);
    var lastName := Lookup(attributes, c.lastNameColumn);
    if firstName.None? || IsBlank(firstName.value) then None
    else Some(NameFormats.Make(firstName.value, lastName).value)
  }

  /** The two-entry array literal; with equal column names the later entry wins. */
  function Columns(c: Caster, firstName: Option<string>, lastName: Option<string>): (r: Attributes)
    ensures r.Keys == {c.firstNameColumn, c.lastNameColumn}
    ensures r[c.lastNameColumn] == lastName
    ensures c.firstNameColumn != c.lastNameColumn ==> r[c.firstNameColumn] == firstName
  {
    map[c.firstNameColumn := firstName][c.lastNameColumn := lastName]
  }

  /**
   * set: null and strings that parse to no name clear both columns; a
   * string otherwise goes through fromFull; a PersonName gives its fields;
   * anything else is refused, naming its type.
   */
  function Set(c: Caster, value: CastValue): (r: Result<Attributes>)
    ensures r.Failure? <==> value.Other?
    ensures value.Other? ==> r.error == InvalidArgument(
              "Value must be null, string, or PersonName instance, got: " + value.typeName)
    ensures value.Null? ==> r == Success(Columns(c, None, None))
    ensures value.Str? ==> r == Success(
              match NameFormats.FromFull(value.s)
              case None => Columns(c, None, None)
              case Some(n) => Columns(c, Some(n.first), n.last))
    ensures value.Str? && IsBlank(value.s) ==> r == Success(Columns(c, None, None))
    ensures value.Person? ==> r == Success(Columns(c, Some(value.name.first), value.name.last))
  {
    match value
    case Null => Success(Columns(c, None, None))
    case Str(s) =>
      var parsed := NameFormats.FromFull(s);
      if parsed.None? then Success(Columns(c, None, None))
      else Success(Columns(c, Some(parsed.value.first), parsed.value.last))
    case Person(n) => Success(Columns(c, Some(n.first), n.last))
    case Other(typeName) =>
      Failure(InvalidArgument("Value must be null, string, or PersonName instance, got: " + typeName))
  }

  /** using(first, last): the cast string `Class:first,last` a model lists in its casts. */
  function Using(firstNameColumn: string, lastNameColumn: string): (r: string)
    ensures |r| == |CastClassName| + 1 + |firstNameColumn| + 1 + |lastNameColumn|
    ensures r[..|CastClassName|] == CastClassName && r[|CastClassName|] == ':'
    ensures r[|CastClassName| + 1..] == firstNameColumn + "," + lastNameColumn
  {
    CastClassName + ":" + firstNameColumn + "," + lastNameColumn
  }

  /** PHP's explode: the pieces between occurrences of `sep`, always at least one. */
  function Explode(s: string, sep: char): (pieces: seq<string>)
    ensures |pieces| >= 1
    ensures forall k :: 0 <= k < |pieces| ==> sep !in pieces[k]
    decreases |s|
  {
    var i := IndexOf(s, sep);
    if i == |s| then [s] else [s[..i]] + Explode(s[i + 1..], sep)
  }

  /**
   * How the framework reads a cast string: the class before the first
   * colon, then the remainder exploded at commas as the arguments.
   */
  function ParseCast(cast: string): (r: (string, seq<string>))
    ensures ':' !in r.0
  {
    var i := IndexOf(cast, ':');
    if i == |cast| then (cast, []) else (cast[..i], Explode(cast[i + 1..], ','))
  }

  /** A string without the separator explodes to itself alone. */
  lemma ExplodeWithout(s: string, sep: char)
    requires sep !in s
    ensures Explode(s, sep) == [s]
  {
  }

  /** Exploding two separator-free pieces joined by the separator gives the two pieces. */
  lemma ExplodeTwo(a: string, b: string, sep: char)
    requires sep !in a && sep !in b
    ensures Explode(a + [sep] + b, sep) == [a, b]
  {
    var s := a + [sep] + b;
    var i := IndexOf(s, sep);
    assert s[|a|] == sep;
    assert forall k :: 0 <= k < |a| ==> s[k] == a[k];
    assert i == |a|;
    assert s[i + 1..] == b;
    assert s[..i] == a;
    ExplodeWithout(b, sep);
  }

  /**
   * The string using() builds is read back by the framework as this cast
   * with the two column names as its arguments, so the caster binds
   * exactly those columns (trimmed), provided neither contains a comma.
   */
  lemma UsingRoundTrip(firstNameColumn: string, lastNameColumn: string)
    requires ',' !in firstNameColumn && ',' !in lastNameColumn
    ensures ParseCast(Using(firstNameColumn, lastNameColumn)) == (CastClassName, [firstNameColumn, lastNameColumn])
    ensures CastUsing(ParseCast(Using(firstNameColumn, lastNameColumn)).1)
            == Caster(Trim(firstNameColumn, TrimSet), Trim(lastNameColumn, TrimSet))
  {
    var u := Using(firstNameColumn, lastNameColumn);
    var n := |CastClassName|;
    assert ':' !in CastClassName;
    var i := IndexOf(u, ':');
    assert forall k :: 0 <= k < n ==> u[k] == CastClassName[k];
    assert i == n;
    assert u[..i] == CastClassName;
    assert u[i + 1..] == firstNameColumn + [','] + lastNameColumn;
    ExplodeTwo(firstNameColumn, lastNameColumn, ',');
  }

  /**
   * Storing a PersonName and reading the row back gives the same name,
   * whenever the caster's two columns differ.
   */
  lemma PersonRoundTrip(c: Caster, n: NameFormats.Name)
    requires c.firstNameColumn != c.lastNameColumn
    requires NameFormats.ValidName(n)
    ensures Set(c, Person(n)).Success?
    ensures Get(c, Set(c, Person(n)).value) == Some(n)
  {
    var row := Set(c, Person(n)).value;
    assert Lookup(row, c.firstNameColumn) == Some(n.first);
    assert Lookup(row, c.lastNameColumn) == n.last;
    NameFormats.MakeOfValid(n);
  }

  /** Storing a string and reading it back gives what fromFull makes of the string. */
  lemma StringRoundTrip(c: Caster, s: string)
    requires c.firstNameColumn != c.lastNameColumn
    ensures Set(c, Str(s)).Success?
    ensures Get(c, Set(c, Str(s)).value) == NameFormats.FromFull(s)
  {
    var parsed := NameFormats.FromFull(s);
    if parsed.Some? {
      PersonRoundTrip(c, parsed.value);
    } else {
      var row := Set(c, Str(s)).value;
      assert Lookup(row, c.firstNameColumn).None?;
    }
  }

  /** Writing back a name that was just read stores both columns in their trimmed form. */
  lemma GetThenSet(c: Caster, attributes: Attributes)
    requires c.firstNameColumn != c.lastNameColumn
    requires Get(c, attributes).Some?
    ensures Set(c, Person(Get(c, attributes).value)) == Success(Columns(c,
              Some(MbTrim(Lookup(attributes, c.firstNameColumn).value)),
              var l := Lookup(attributes, c.lastNameColumn);
              if l.None? || IsBlank(l.value) then None else Some(MbTrim(l.value))))
  {
  }

  /** With both columns equal the stored first name is overwritten by the last name, so the round trip breaks. */
  lemma SameColumnLosesFirstName(column: string, n: NameFormats.Name)
    requires n.last.None?
    ensures Get(Caster(column, column), Set(Caster(column, column), Person(n)).value).None?
  {
    var c := Caster(column, column);
    assert Set(c, Person(n)).value[column] == None;
  }
}
