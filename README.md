# ORCA output parser, modelled in Dafny

This project models the ORCA parser of `qccodec`, a library that turns the raw
output of quantum-chemistry programs into structured results. The parser has
three parts:

- **`iter_files(stdout, directory)`** is a generator over ORCA's raw
  artifacts. It first yields the console text, if there is any. It then yields
  the output directory, if one is given. If that path is missing or is not a
  directory, it raises `ParserError` instead. It never yields more than two
  items.
- **`parse_energy(contents)`** searches the console text for
  `FINAL ENERGY: (-?\d+(?:\.\d+)?)` with Python's `re.search`. It returns the
  number in the leftmost match. When there is no match, the helper
  `re_search` raises `MatchNotFoundError`. That helper is not part of this
  model, so its message is not known here; the model's failure carries the
  pattern.
- **The `@register` record** files `parse_energy` under the `stdout`
  artifact kind, for the energy, gradient and Hessian calculation types, with
  target `energy`.

Modules, in dependency order:

| file | module | contents |
|---|---|---|
| `wrappers.dfy` | `Wrappers` | `Option` and `Result` |
| `search.dfy` | `LeftmostSearch` | `re.search`'s leftmost-position search, generic in the anchored matcher |
| `digits.dfy` | `Digits` | ASCII digits, the numeral a digit string denotes, and positional fractions |
| `energy_pattern.dfy` | `EnergyPattern` | the regex `<literal>(-?\d+(?:\.\d+)?)` run as the regex engine runs it, a declarative description of the same language, and the facts about which characters decide a match |
| `energy_search.dfy` | `EnergySearch` | the leftmost match of that pattern, and how it behaves when text is appended or prepended |
| `orca.dfy` | `Orca` | `iter_files`, the registration record, `parse_energy`, and worked cases |

How the model is built:

- **The regex engine.** `EnergyPattern.MatchNumber` follows the engine step by
  step. `-?` is greedy. `\d+` takes the longest run of digits. The optional
  group `(?:\.\d+)` backtracks to nothing when no digit follows the `.`.
  `EnergyPattern.Accepts` is an independent declarative description of the
  pattern: the token's text opens the input and the quantifiers could take
  nothing more. The two are proved to pick exactly the same token.
- **The literal is a parameter.** The pattern's literal part is a parameter
  `lit`; `Orca` instantiates it with `FINAL ENERGY: `. So every property of
  matching and searching is proved once, for any literal.
- **The search is generic.** `re.search` is modelled as a search over a
  matcher `string -> Option<T>`, tried at positions 0, 1, … up to and
  including the end of the text.
- **The number's value.** A parsed energy carries its token and the exact
  decimal value (a `real`) that the token denotes.
- **The generator.** `iter_files` has two views:
  - `Orca.IterFiles` gives the list of items a consumer collects and the error
    raised after them.
  - `Orca.Next` and `Orca.Drain` follow the generator resumption by
    resumption.

  The two views are proved equal.
- **The filesystem test.** The directory's "exists and is a directory" check
  is the boolean parameter `dirValid`.

Two consequences of the code are worth stating:

- **The console item comes before the directory check.** The generator yields
  the console text first and checks the directory only when it is resumed
  (`orca.py:49-58`). So the console item is delivered even when the check
  raises. `Orca.StdoutYieldedBeforeDirectoryCheck` proves this.
- **Surrounding text matters.** `parse_energy` returns the leftmost match, and
  `\d+` is greedy. Text around an energy line leaves the result unchanged only
  under the conditions of `Orca.AppendKeepsResult` and
  `Orca.PrependKeepsResult`. Two lemmas show why those conditions are needed:
  - `Orca.AppendCanExtendNumber`: a digit right after the match becomes part
    of the number.
  - `Orca.PrependCanFormMatch`: a text cut anywhere inside the literal can
    join with the following text into a new match.

## Model

| member | source | states |
|---|---|---|
| `Orca.NameRoundTrip` | src/qccodec/parsers/orca.py:24-28 | the enumeration's values and members correspond one to one: looking up a member's value (`OrcaFileType("stdout")`, modelled by `FromName`) gives the member back, and a successful lookup returns a member with that value |
| `Orca.IterFiles` | src/qccodec/parsers/orca.py:31-59 | exactly one item for the console text when it is given, plus one for a valid directory, and no others; the console text, when given, is the first item whatever happens to the directory; without console text no item is of kind stdout; a directory item is produced iff a directory is given and valid, and it is the last item; an error is raised iff a directory is given and invalid, and its message names the path; nothing at all for two absent inputs |
| `Orca.Next` | src/qccodec/parsers/orca.py:49-59 | one resumption of the generator; every yield moves strictly forward through the body, so the generator ends |
| `Orca.Drain` | src/qccodec/parsers/orca.py:31-59 | consuming the generator from a resumption point collects no more items than yields remain in the body from there |
| `Orca.NotADirectoryNamesPath` | src/qccodec/parsers/orca.py:56-58 | the `ParserError` message identifies the path: two paths give the same message iff they are equal |
| `Orca.IterFilesIsDrained` | src/qccodec/parsers/orca.py:31-59 | the list view of the iterator equals what a consumer collects by resuming the generator until it is exhausted or raises |
| `Orca.StdoutYieldedBeforeDirectoryCheck` | src/qccodec/parsers/orca.py:49-58 | the first resumption yields the console text without consulting the filesystem test, and the next one raises for an invalid directory, so the console item is delivered before the error |
| `Orca.RegisteredFiletypeComesFirst` | src/qccodec/parsers/orca.py:62-66 | the artifact kind `parse_energy` is registered for is the kind of the iterator's first item, whose payload is the console text itself |
| `Orca.ParseEnergyRegistration` | src/qccodec/parsers/orca.py:62-66 | `parse_energy` is registered for the `stdout` artifact kind, for every calculation type of the model (energy, gradient, Hessian), with target `energy` |
| `Orca.ParseEnergy` | src/qccodec/parsers/orca.py:67-75 | fails iff no position of the text holds a match, and then with the error naming the pattern; on success the token is well formed, is the match at the leftmost matching position, and the value is its exact decimal value |
| `Orca.ParseEnergyAccepts` | src/qccodec/parsers/orca.py:74-75 | in terms of the declarative description: failure iff no position opens with the literal and an accepted number; on success the token is accepted at some position of the text |
| `Orca.FirstMatchWins` | src/qccodec/parsers/orca.py:71-75 | whenever a token is the leftmost match, whatever follows it (more energy lines included), the result is that token and its value: the first occurrence is returned |
| `Orca.AppendKeepsResult` | src/qccodec/parsers/orca.py:74-75 | text appended after a settled leftmost match (followed by a character other than `.`, or by two characters) leaves the result unchanged |
| `Orca.PrependKeepsResult` | src/qccodec/parsers/orca.py:74-75 | whole lines that hold no match, put in front, leave the result unchanged |
| `Orca.DecimalValue` | src/qccodec/parsers/orca.py:75 | the reference value of the captured number: the integer digits give the integer part of its magnitude and the sign gives its direction |
| `Orca.ToDecimal` | src/qccodec/parsers/orca.py:75 | reading all digits as one numeral and scaling by the count of fraction digits gives the token's positional decimal value, sign included |
| `Orca.EnergyLineAtStart` | src/qccodec/parsers/orca.py:74-75 | text that opens with `FINAL ENERGY: ` and an accepted number parses to that number |
| `Orca.WaterEnergy` | src/qccodec/parsers/orca.py:74-75 | `FINAL ENERGY: -76.404459` followed by a line break parses to exactly -76.404459 |
| `Orca.FirstLineReported` | src/qccodec/parsers/orca.py:71-75 | of two energy lines, the first one's token is returned |
| `Orca.LinesWithoutLeadSkipped` | src/qccodec/parsers/orca.py:74-75 | whole lines without the letter `F` in front of the text do not change the result |
| `Orca.NoEnergyLine` | src/qccodec/parsers/orca.py:74-75 | the literal in lower case is no match: the parse fails with the error naming the pattern |
| `Orca.DigitsLine` | src/qccodec/parsers/orca.py:74-75 | an energy line whose number is a bare run of digits captures the whole run with no sign and no fraction |
| `Orca.AppendCanExtendNumber` | src/qccodec/parsers/orca.py:74 | a digit appended right after a match's digits becomes part of the captured number, so the settledness condition of `AppendKeepsResult` is needed |
| `Orca.PrependCanFormMatch` | src/qccodec/parsers/orca.py:74 | cut anywhere inside the literal, an energy line is two texts without a match whose concatenation has one, so the whole-lines condition of `PrependKeepsResult` is needed |
| `LeftmostSearch.SearchFrom` | src/qccodec/parsers/orca.py:75 | the result is the first position at or after the start index where the matcher succeeds, with its value; none iff it fails at every such position up to and including the end |
| `LeftmostSearch.Search` | src/qccodec/parsers/orca.py:75 | none iff no position holds a match; otherwise the leftmost matching position and the value matched there |
| `LeftmostSearch.SearchLeftmost` | src/qccodec/parsers/orca.py:75 | a match with no match before it is the only answer the search gives |
| `LeftmostSearch.SearchPrepend` | src/qccodec/parsers/orca.py:75 | text in front whose positions hold no match shifts the result by its length and changes nothing else |
| `EnergySearch.FirstMatch` | src/qccodec/parsers/orca.py:74-75 | `re.search` of the pattern: none iff no position holds a match, otherwise the leftmost match |
| `EnergySearch.FirstMatchIsUnique` | src/qccodec/parsers/orca.py:74-75 | the leftmost match is the result |
| `EnergySearch.IsFirstMatchAt` | src/qccodec/parsers/orca.py:74-75 | bridging helper: restates `IsFirstMatch`, which is written over the matcher value, directly in terms of `MatchAt`, in both directions |
| `EnergySearch.NoMatchIffNoneAccepted` | src/qccodec/parsers/orca.py:74 | no position holds a match iff no position opens with the literal and an accepted number |
| `EnergySearch.FirstMatchAccepts` | src/qccodec/parsers/orca.py:74-75 | the search finds nothing iff no position is accepted, and otherwise the token is accepted where the match starts |
| `EnergySearch.AppendKeepsFirstMatch` | src/qccodec/parsers/orca.py:74-75 | a settled leftmost match stays the leftmost match after any text is appended |
| `EnergySearch.PrependKeepsFirstMatch` | src/qccodec/parsers/orca.py:74-75 | prepending whole lines without a match shifts the search result by their length |
| `EnergySearch.NoLeadNoMatch` | src/qccodec/parsers/orca.py:74 | a text without the literal's first character holds no match |
| `EnergySearch.TooShortNoMatch` | src/qccodec/parsers/orca.py:74 | a text no longer than the literal holds no match |
| `EnergyPattern.DigitRun` | src/qccodec/parsers/orca.py:74 | the greedy digit run: within the text, all digits, and not followed by a digit |
| `EnergyPattern.DigitRunOf` | src/qccodec/parsers/orca.py:74 | any digit run that opens the text and is not followed by a digit is the one the greedy run takes |
| `EnergyPattern.OptionalFraction` | src/qccodec/parsers/orca.py:74 | the optional group takes `.` and a maximal non-empty digit run, and takes nothing exactly when the text does not open with `.` and a digit |
| `EnergyPattern.OptionalFractionOf` | src/qccodec/parsers/orca.py:74 | a fraction meeting those conditions is the one the optional group takes |
| `EnergyPattern.SignLength` | src/qccodec/parsers/orca.py:74 | `-?` takes one character, the `-`, exactly when the text opens with one, and none otherwise |
| `EnergyPattern.MatchNumber` | src/qccodec/parsers/orca.py:74 | the regex engine on the capture group: a captured token is well formed; `MatchNumberSound` and `MatchNumberFinds` prove it equal to the declarative `NumberAccepts` |
| `EnergyPattern.MatchNumberSound` | src/qccodec/parsers/orca.py:74 | every token the engine captures is accepted by the declarative description |
| `EnergyPattern.MatchNumberFinds` | src/qccodec/parsers/orca.py:74 | every token the declarative description accepts is the one the engine captures |
| `EnergyPattern.MatchNumberComplete` | src/qccodec/parsers/orca.py:74 | backtracking never makes the group fail when a well-formed token opens the text |
| `EnergyPattern.MatchNumberOpens` | src/qccodec/parsers/orca.py:74 | the group matches iff the text opens with a digit, or with `-` and a digit |
| `EnergyPattern.StartsWithIsPrefix` | src/qccodec/parsers/orca.py:74 | the character-by-character literal comparison is sequence prefix, both directions |
| `EnergyPattern.MatchAt` | src/qccodec/parsers/orca.py:74 | the whole pattern anchored at the start of the text: a match opens with the literal and captures a well-formed token; `MatchAtExactly` proves it equal to the declarative `Accepts` |
| `EnergyPattern.MatchAtExactly` | src/qccodec/parsers/orca.py:74 | the anchored match returns a token iff the declarative description accepts it there |
| `EnergyPattern.MatchAtAfterLiteral` | src/qccodec/parsers/orca.py:74 | right after the literal, matching is the capture group's matching |
| `EnergyPattern.FractionGroupBacktracks` | src/qccodec/parsers/orca.py:74 | `12.` before a non-digit captures `12`: the optional group gives back the `.` |
| `EnergyPattern.NumberMustOpenWithDigit` | src/qccodec/parsers/orca.py:74 | after the literal, a lone `-`, a `+` sign or a leading `.` is no match |
| `EnergyPattern.MatchAtComplete` | src/qccodec/parsers/orca.py:74 | the literal followed by any well-formed token is a match |
| `EnergyPattern.MatchAtOccurs` | src/qccodec/parsers/orca.py:74 | a match exists iff the literal is followed by a digit, or by `-` and a digit |
| `EnergyPattern.WindowDecides` | src/qccodec/parsers/orca.py:74 | whether the pattern occurs depends only on the literal and the next one or two characters |
| `EnergyPattern.WindowHasNoNewline` | src/qccodec/parsers/orca.py:74 | for a literal without line breaks, those characters hold no line break |
| `EnergyPattern.MatchAtExtend` | src/qccodec/parsers/orca.py:74 | a match whose end is settled is unchanged by appended text |
| `EnergyPattern.NoMatchStaysNone` | src/qccodec/parsers/orca.py:74 | a position with no match, at least a window away from the end, still has none after text is appended |
| `EnergyPattern.NoMatchBeforeLineEnd` | src/qccodec/parsers/orca.py:74 | a position with no match inside text that ends with a line break still has none after text is appended |
| `Digits.FracValue` | src/qccodec/parsers/orca.py:75 | the value of fraction digits read positionally lies in [0, 1) |
| `Digits.NumeralAppend` | src/qccodec/parsers/orca.py:75 | digits written after a numeral shift its value left by their count |
| `Digits.FracValueIsScaledNumeral` | src/qccodec/parsers/orca.py:75 | the positional fraction value equals the digits read as one numeral and scaled down by their count |
| `Digits.ScaledNumeralSplits` | src/qccodec/parsers/orca.py:75 | the scaled numeral of integer and fraction digits equals the integer part plus the positional fraction |

## Left out

- Filesystem access. `Path(directory)`, `exists()` and `is_dir()` become the parameter `dirValid`. Converting a string to a `Path` is not modelled, so the directory payload and the error message use the path text as given.
- Orca.ToDecimal: the value is the exact decimal the token denotes, a `real`. It is not rounded to the nearest IEEE 754 double as `float()` rounds it, because floating point is not modelled.
- EnergyPattern.MatchAt: `\d` matches only the ASCII digits `0`-`9`. Python's `\d` on `str` also matches other Unicode decimal digits, which `float()` also accepts. Unicode character classes are not modelled.
- `re_search` and `MatchNotFoundError` come from `src/qccodec/parsers/utils.py` and `src/qccodec/exceptions.py`, which are not part of this model. The model keeps only what the parser relies on: the leftmost match, or a failure that names the pattern.
- The registry behind `@register` is not part of this model. Only the record attached to `parse_energy` is modelled.
- `CalcType` comes from `qcio`. It is reduced to the three members the registration names.
- The dispatcher that runs registered parsers over the iterator's artifacts is not part of this model. So are the result types of `qcio`.
- Laziness is modelled through the generator's resumption points (`Orca.Next`). Concurrent consumers and generator closing are not modelled.
