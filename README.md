# name-of-person in Dafny

A model of the two classes of the PHP library `hosmelq/name-of-person`, with proofs about them:

- **`PersonName`** is an immutable pair of a trimmed, non-blank first name and an optional last name. Its parser `fromFull` turns a full-name string into that pair. It derives the formats full, sorted, abbreviated, familiar, initials, mentionable and possessive, and it has a structural `equals`.
- **`PersonNameCast`** is the Eloquent cast. It stores a `PersonName` in two string columns (`first_name`/`last_name` by default) and reads it back.

The model has six modules:

- `Wrappers` (`wrappers.dfy`): `Option`, `Result` and the `InvalidArgument` error. The error stands for `InvalidArgumentException` and carries its message.
- `Strings` (`strings.dfy`): the string primitives the PHP code calls, on strings of code points (the unit of `mb_substr`). These are `mb_trim`, `trim`, `mb_strtolower`, `str_replace`, and the three regular expressions: whitespace collapsing, the two-piece split, and the bracket stripper with the initials scanner. Each one is a recursive function with its contract. Lemmas state the shape of its result: single-spaced, idempotent, where the split falls, which groups are removed.
- `NameFormats` (`name_formats.dfy`): the value part of `PersonName`.
  - It holds the `Name` datatype, the constructor's checks (`Make`), `fromFull`, every derived format as a function of the two fields, and `possessive` with its error case.
  - It also holds the lemmas relating them. The central one is the round trip between `full()` and `fromFull()`, which holds exactly for names whose first name has no white space and whose last name is single-spaced.
- `PersonNames` (`person_name.dfy`): the `PersonName` class with its two readonly fields and six lazily filled caches.
  - Each accessor is a method that fills its own cache on first use.
  - Each one is proved to return the pure format and to keep the class invariant `Valid()`: every filled cache holds its format.
  - `initials()` and `mentionable()` fill the full-name and familiar-name caches on the way, and their contracts say so.
- `PersonNameCasts` (`person_name_cast.dfy`): `castUsing` with its defaulted and trimmed column names, the caster's `get` and `set` on a record of nullable strings, and `using`. It includes the set-then-get round trips, and the parsing of the `Class:a,b` string that `using` builds.
- `Scenarios` (`scenarios.dfy`): the documented examples, derived from the general lemmas: possessive with a name ending in "s", the mentionable name "foob", and the initials "CM" of a name with a bracketed suffix.

## Model

| member | source | states |
|---|---|---|
| NameFormats.Make | src/PersonName.php:60-68 | Fails with "First name is required." exactly when the first name trims to nothing. Otherwise the first name is the trimmed input and the name is valid. The last name is null exactly when the input was null or blank, and otherwise it is the trimmed input. |
| NameFormats.MakeOfValid | src/PersonName.php:60-68 | Rebuilding a valid name from its own fields gives it back (the constructor is idempotent on its output). |
| PersonNames.PersonName.New | src/PersonName.php:60-68 | The checked constructor. It fails with the invalid-argument error exactly for a blank first name and then creates no object. Otherwise it gives a fresh, valid object with empty caches, holding the value `Make` computes. |
| PersonNames.PersonName.constructor | src/PersonName.php:60-68 | Allocates an already checked name: fields set from the name, every cache null. |
| NameFormats.FromFull | src/PersonName.php:73-83 | null exactly for a blank string. Otherwise a valid name whose first name contains no white space, so the constructor never throws from here. |
| PersonNames.PersonName.FromFull | src/PersonName.php:73-83 | The static factory: null exactly for a blank string. Otherwise a fresh, valid object with empty caches, holding the name that fromFull parses. |
| NameFormats.FromFullFirstPiece | src/PersonName.php:80-82 | For a non-blank string the split yields a first piece that is not blank and holds no white space. |
| NameFormats.FromFullSplitsAtFirstSpace | src/PersonName.php:73-83 | fromFull in other words: the first name is the trimmed string's first white-space-free token. The last name is everything after the first white-space run, collapsed and trimmed, or null when there is one token. |
| NameFormats.FromFullShape | src/PersonName.php:73-83 | Every parsed name has a white-space-free first name and a single-spaced last name. |
| NameFormats.FullRoundTrip | src/PersonName.php:73-83 | fromFull(full(n)) == n for a valid name with a white-space-free first name and a single-spaced last name. |
| NameFormats.FullRoundTripIff | src/PersonName.php:73-83 | For a valid name, fromFull(full(n)) == n holds if and only if the first name is white-space-free and the last name single-spaced. |
| NameFormats.FirstWithSpaceNotRecovered | src/PersonName.php:73-83 | A valid first name holding white space comes back from fromFull(full(n)) changed. |
| NameFormats.SortedRearrangesFull | src/PersonName.php:183-188 | sorted() has the characters of full() plus one comma when there is a last name. It equals full() exactly when the last name is null. |
| NameFormats.FamiliarAndAbbreviatedFromFull | src/PersonName.php:88-121 | Without a last name familiar, abbreviated and full are all the first name. With one, familiar is full cut after the last name's initial plus ".", and abbreviated is the first initial, ".", and full from the space on. |
| NameFormats.InitialsOfPlainName | src/PersonName.php:126-137 | Without brackets or parentheses, initials are the word initials of the first name followed by those of the last name. Two single words give their two first characters. |
| NameFormats.MentionableIsFirstAndLastInitial | src/PersonName.php:142-153 | mentionable is the first name without spaces followed by the last name's initial, lower-cased, and it holds no space. |
| NameFormats.Possessive | src/PersonName.php:158-178 | Fails with "Please provide a valid method" exactly when the format is not one of the six allowed. |
| NameFormats.PossessiveSuffixRule | src/PersonName.php:166-177 | For an allowed format the result is the chosen format plus "'" when it ends in "s" or "S", and plus "'s" otherwise, including for an empty string. |
| NameFormats.PossessiveLastFallsBackToFirst | src/PersonName.php:171 | With no last name, possessive("last") is possessive("first"). |
| PersonNames.PersonName.Equals | src/PersonName.php:98-101 | True exactly when both fields are equal; the caches play no part. |
| PersonNames.PersonName.Abbreviated | src/PersonName.php:88-93 | Returns the abbreviated format and leaves it in its cache, keeping every cache consistent. |
| PersonNames.PersonName.Familiar | src/PersonName.php:106-111 | Returns the familiar format and leaves it in its cache, keeping every cache consistent. |
| PersonNames.PersonName.Full | src/PersonName.php:116-121 | Returns the full name and leaves it in its cache, keeping every cache consistent. |
| PersonNames.PersonName.Sorted | src/PersonName.php:183-188 | Returns the sorted format and leaves it in its cache, keeping every cache consistent. |
| PersonNames.PersonName.Initials | src/PersonName.php:126-137 | Returns the initials and caches them. On a cache miss it also fills the full-name cache; on a hit nothing else changes. |
| PersonNames.PersonName.Mentionable | src/PersonName.php:142-153 | Returns the mentionable name and caches it. On a cache miss it also fills the familiar-name cache; on a hit nothing else changes. |
| PersonNames.PersonName.Possessive | src/PersonName.php:158-178 | Returns the possessive value, an error for an unknown format. Exactly the chosen accessor's caches are filled; an invalid format touches none. |
| PersonNames.PersonName.Chosen | src/PersonName.php:166-173 | The chosen format read through its accessor ("last" falls back to the first name), with the caches that accessor fills. |
| PersonNames.PersonName.JsonSerialize | src/PersonName.php:193-196 | Returns the full name and caches it. |
| PersonNames.PersonName.ToString | src/PersonName.php:201-204 | Returns the full name and caches it. |
| Strings.Trim | src/PersonName.php:62-67 | mb_trim/trim: the result is empty exactly when every character is trimmable. A non-empty result has no trimmable character at either end. A string without trimmable ends is returned unchanged. TrimIsInfix and TrimmedEnds say which infix is kept. |
| Strings.TrimIsInfix | src/PersonName.php:62-67 | What trimming keeps is the infix of the input that starts after the leading run of trimmable characters. |
| Strings.TrimmedEnds | src/PersonName.php:62-67 | Every character trimming drops, before or after the kept infix, is trimmable. Together with Trim's ensures and TrimIsInfix this determines the result. |
| Strings.CollapseSpaces | src/PersonName.php:80 | Whitespace collapsing never lengthens the string, empties only the empty string, and keeps non-space first and last characters. |
| Strings.CollapseSpacesShape | src/PersonName.php:80 | The collapsed string is single-spaced: every white-space character is a plain space and no two are adjacent. |
| Strings.CollapseFixedPoints | src/PersonName.php:80 | Collapsing leaves a string unchanged exactly when it is already single-spaced, and collapsing twice is collapsing once. |
| Strings.CollapseAtFirstSpace | src/PersonName.php:80 | Collapsing keeps the token before the first white-space run and replaces that run by one space. |
| Strings.TrimKeepsSingleSpaced | src/PersonName.php:80-82 | Trimming a single-spaced string keeps it single-spaced. |
| Strings.SplitTwo | src/PersonName.php:80 | The split with limit 2 and empty pieces dropped gives no piece exactly for an all-space string. The first piece is non-empty, space-free and starts the string when it does not start with a space. A second piece starts with a non-space. |
| Strings.SplitTwoOfCollapsed | src/PersonName.php:80 | On a trimmed string, collapsing then splitting gives the first token and the collapsed remainder. |
| Strings.SplitTwoOfJoin | src/PersonName.php:80 | A space-free token, one space and a remainder starting with a non-space split back into the token and the remainder. |
| Strings.StripGroups | src/PersonName.php:129 | The bracket stripper never lengthens the string and leaves a string without "(" or "[" unchanged. |
| Strings.StripGroupsPlainPrefix | src/PersonName.php:129 | A prefix without opening brackets survives the stripper unchanged in front of the stripped rest. |
| Strings.StripGroupsSquare | src/PersonName.php:129 | A "[...]" group with no "]" inside is removed entirely. |
| Strings.StripGroupsParen | src/PersonName.php:129 | A "(...)" group with no ")" inside is removed entirely. |
| Strings.StripGroupsUnclosedParen | src/PersonName.php:129 | A "(" with no ")" after it stays, and the stripper goes on after it. |
| Strings.StripGroupsUnclosedSquare | src/PersonName.php:129 | A "[" with no "]" after it stays, and the stripper goes on after it. |
| Strings.WordInitialsAfter | src/PersonName.php:131-133 | The initials scanner yields only word characters and never more than the input. |
| Strings.WordInitialsSplit | src/PersonName.php:131-133 | A non-word separator splits the initials: those of the left part followed by those of the right part. |
| Strings.WordInitialsOfWord | src/PersonName.php:131-133 | One non-empty run of word characters has exactly its first character as initial. |
| Strings.Without | src/PersonName.php:149 | str_replace removes every occurrence: no result character is the removed one. The empty string stays empty, and a one-character string vanishes when it is the removed character and stays otherwise. With WithoutAppend this determines the result: every other character is kept, in order. |
| Strings.WithoutAppend | src/PersonName.php:149 | Removing a character distributes over concatenation. |
| Strings.Lower | src/PersonName.php:149 | mb_strtolower keeps the length and lower-cases character by character. |
| Strings.ToLower | src/PersonName.php:175 | A character lowers to "s" exactly when it is "s" or "S", and to a space exactly when it is a space. No result is an ASCII capital. |
| PersonNameCasts.CastUsing | src/PersonNameCast.php:21-26 | With no arguments the columns are first_name/last_name. Given arguments are trimmed and used by position; a default applies only where an argument is missing. |
| PersonNameCasts.Lookup | src/PersonNameCast.php:37-39 | `$attributes[col] ?? null`: a string exactly when the column is present and not null. |
| PersonNameCasts.Get | src/PersonNameCast.php:34-46 | null exactly when the first-name column is missing, null or blank. Otherwise the name the constructor makes from the two columns, which is valid. |
| PersonNameCasts.Columns | src/PersonNameCast.php:55-83 | The two-entry record has exactly the two column keys. The last-name entry wins when the two keys coincide. |
| PersonNameCasts.Set | src/PersonNameCast.php:53-91 | Fails with "Value must be null, string, or PersonName instance, got: " and the type name exactly for other values. null and blank strings give two null columns. A string gives fromFull's fields. A name gives its own fields. |
| PersonNameCasts.Using | src/PersonNameCast.php:100-103 | The class name, ":", the first column, ",", the last column. |
| PersonNameCasts.UsingRoundTrip | src/PersonNameCast.php:100-103 | For column names without commas, the `using` string, read back by `ParseCast` (the stand-in for the framework's reading of cast strings), parses back into the class name and the two columns, and configures a caster with the trimmed columns. |
| PersonNameCasts.PersonRoundTrip | src/PersonNameCast.php:34-83 | With distinct columns, set of a valid name never fails and get of the result is that name. |
| PersonNameCasts.StringRoundTrip | src/PersonNameCast.php:34-76 | With distinct columns, set of a string then get is fromFull of the string, null for a blank one. |
| PersonNameCasts.GetThenSet | src/PersonNameCast.php:34-83 | Storing what get read gives the trimmed first-name column and the trimmed (or nulled, when blank) last-name column. |
| PersonNameCasts.SameColumnLosesFirstName | src/PersonNameCast.php:34-83 | When both columns are the same key, a name without a last name is stored as null and reads back as no name. |
| Scenarios.PossessiveOfNameEndingInS | tests/Unit/PersonNameTest.php:45-53 | "Foo Bars" gets "Foo Bars'" and "Foo Bar" gets "Foo Bar's". |
| Scenarios.MentionableOfFooBar | tests/Unit/PersonNameTest.php:64-68 | Foo Bar's mentionable name is "foob". |
| Scenarios.FooBarParsed | tests/Unit/PersonNameTest.php:65 | fromFull("Foo Bar") is first name Foo, last name Bar. |
| Scenarios.MentionableOfParsedFooBar | tests/Unit/PersonNameTest.php:64-68 | The mentionable name of fromFull("Foo Bar") is "foob". |
| Scenarios.BracketsRemoved | tests/Unit/PersonNameTest.php:79-81 | "Conor Muirhead [Basecamp]" loses its bracketed group. |
| Scenarios.InitialsWithBracketedSuffix | tests/Unit/PersonNameTest.php:79-81 | The initials of Conor / "Muirhead [Basecamp]" are "CM". |
| Scenarios.ConorParsed | tests/Unit/PersonNameTest.php:79 | fromFull("Conor Muirhead [Basecamp]") is first name Conor, last name "Muirhead [Basecamp]". |
| Scenarios.InitialsOfParsedConor | tests/Unit/PersonNameTest.php:79-81 | The initials of fromFull("Conor Muirhead [Basecamp]") are "CM". |

## Left out

- Eloquent plumbing is not part of this model: the `Model` and `$key` parameters, the `Castable`/`CastsAttributes` interfaces and the framework's use of the cast string. `ParseCast` and `Explode` are not part of the library: they stand in for the framework's reading of that string, splitting at the first ":" and then at ",", only so that UsingRoundTrip can state what `using` is for.
- Invalid UTF-8 is not modelled. The library calls the `Safe\preg_replace`, `Safe\preg_split` and `Safe\preg_match_all` wrappers with the /u modifier, and these throw on a subject that is not valid UTF-8. That error path of fromFull, initials and `set` of a string cannot arise here, because a Dafny string is a sequence of code points.
- `get` and `set` work on `Name` values rather than `PersonName` objects. An attribute value is a nullable string. `get`'s reading a non-string column value is not modelled.
- `set`'s error names the value's type with `get_debug_type`. Here the type name is the `typeName` parameter of the `Other` case, not computed.
- `json_encode` is not modelled; `JsonSerialize` returns the string it would encode.
- Strings.IsWordChar: `\w` under /u is a Unicode property. The model covers ASCII letters, digits and the underscore, the Latin-1 letters, Latin Extended-A and -B, and the CJK Unified Ideographs block. Other scripts count as non-word characters.
- Strings.ToLower: full Unicode case mapping is not modelled. The model maps ASCII and Latin-1 capitals only, one character to one character.
- Strings.CollapseSpaces: its own contract states length, emptiness and kept end characters. The full shape is in CollapseSpacesShape and CollapseAtFirstSpace.
- The remaining documented examples were not restated as concrete lemmas. These are "  Will   St. Clair  ", "David Heinemeier Hansson" and the Unicode names. The general lemmas (FromFullSplitsAtFirstSpace, InitialsOfPlainName, FamiliarAndAbbreviatedFromFull) cover them.
- Concurrency and object identity beyond one instance's caches are not modelled. PHP objects are not shared between threads.
- Two behaviours one might expect of a name library do not hold in the code, and the model follows the code:
  - A first name holding white space does not survive `fromFull(full())`; FirstWithSpaceNotRecovered states this.
  - `initials` takes the first character of every run of word characters (`\b(\w)\w*`), not of every white-space-delimited word.
