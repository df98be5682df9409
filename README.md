# Dependency lookup of the Cargo dependency visualiser, in Dafny

The Python program `task.py` is the start of a dependency-graph visualiser
for Cargo packages. Its only real logic is `CargoRepository`, a dependency
source addressed by a locator string. For a `file://` locator it reads the
named text file, where each line is a record

    NAME[@VERSION] -> DEP1[@VERSION], DEP2[@VERSION], ...

and returns the dependency names of the first record whose name and version
match the query, with the `@version` suffixes removed. Beside it, the first
stage of the command line checks its configuration parameters.

This project models both pieces and proves what they promise:

- `text.dfy` (module `Text`): the Python string operations the parser uses —
  `strip()`, `rstrip('/')`, `startswith`, `sub in s`, `split(sep)` — each
  with a contract that characterises it (what is kept, what is cut, and the
  `Join` round trip of `split`).
- `records.dfy` (module `Records`): one line's verdict (`Examine`: no match,
  a match with its dependency names, or the `ValueError` of a header with two
  or more `@`), the top-to-bottom scan (`Scan`, `Lookup`), and the lemmas
  about them: first match wins, later lines never matter, blank and
  arrow-less lines never matter, a malformed header aborts the whole lookup,
  the version rule, and which part of a record the dependencies come from.
- `repository.dfy` (module `Repository`): the class `CargoRepository` with
  its normalised locator, `GetPackageDependencies` and the imperative scan
  `ParseTestFile` (a `while` loop with early exits), proved equal to the
  specification functions.
- `config.dfy` (module `Config`): the stage-1 parameter checks
  (`ValidateStage1`) with an abstraction of Python's `int()`.

The file system is a parameter: a map from path to the lines Python yields
when reading the file. A path missing from the map stands for a file that
cannot be opened. The source catches that failure, prints a message and
returns an empty list; the model keeps only the empty list. A file whose
reading fails part-way (bytes that are not valid UTF-8) is given by the lines
read before the failure: a record that decides the lookup before that point
is returned as in the source, and otherwise the caught exception gives the
empty list, which is also what the scan of those lines gives.

Three behaviours of the code are easy to misread:

- A header with two or more `@` is not skipped. The tuple unpacking raises
  `ValueError`, and the catch-all handler ends the whole lookup with an empty
  result, even when a later line would match.
- There is no memoisation, reverse-dependency index, graph traversal, cycle
  detection, load order or graph export in the code, so none is modelled.
- After the header is split at `@`, its name and version are not stripped
  again, and neither are the dependency names. So `serde @1.0` has the name
  `serde ` (with a trailing space), and the entry `a @1` gives `a `.

## Model

| member | source | states |
|---|---|---|
| `Text.Strip` | task.py:23 | `strip()` leaves no whitespace at either end and is empty exactly when the input is all whitespace |
| `Text.StripSurrounded` | task.py:23 | `strip()` removes exactly the surrounding whitespace of a trimmed text and nothing else |
| `Text.StripIdempotent` | task.py:36-38 | stripping twice is stripping once, so the second `d.strip()` test filters the already-stripped entries exactly |
| `Text.RStrip` | task.py:9 | `rstrip('/')` keeps the longest prefix not ending in `/` and removes only `/` characters |
| `Text.IndexOf` | task.py:24 | a found index is a place where the substring occurs |
| `Text.IndexOfFirst` | task.py:24 | the substring search finds the first occurrence, and finds none exactly when the substring does not occur anywhere |
| `Text.OccursContains` | task.py:24 | an occurrence anywhere makes `sub in s` true |
| `Text.ContainsChar` | task.py:29 | for a one-character needle, `'@' in s` is plain membership of the character |
| `Text.Contains` | task.py:24 | `sub in s`: true exactly when some position holds `sub` (see `IndexOfFirst`, `OccursContains`, `ContainsChar`) |
| `Text.StartsWith` | task.py:13 | `s.startswith(p)`: `p` is a prefix of `s`; `GetPackageDependencies` and `BareSchemeReadsNothing` rely on it |
| `Text.Split` | task.py:25 | `split(sep)` gives at least one part, the parts joined with `sep` give back the input, and there is one part exactly when `sep` does not occur |
| `Text.SplitPartsAvoidSep` | task.py:25 | no part of `split(sep)` contains `sep` |
| `Text.BlankIsStripEmpty` | task.py:38 | a text is blank (whitespace only) exactly when `strip()` leaves nothing, so `if d.strip()` keeps the non-blank entries |
| `Text.SplitCharCount` | task.py:30 | splitting on one character gives one more part than the character's occurrences |
| `Records.ParseHeader` | task.py:29-32 | the header unpacking fails exactly when `@` occurs two or more times; otherwise name and version hold no `@` and rebuild the header (`name@version`, or the header alone with version `""` when it has no `@`) |
| `Records.Matches` | task.py:35 | the query test; `VersionedQuery` and `UnversionedQuery` characterise it on the raw header text |
| `Records.RecordOf` | task.py:23-26 | a line is a record exactly when it is not blank and its stripped text contains `->`; the header text is stripped |
| `Records.CleanName` | task.py:38 | a cleaned entry holds no `@`, is a prefix of the entry, and is cut exactly at the first `@` |
| `Records.CleanNameIsSplitHead` | task.py:38 | the cleaned entry equals `d.split('@')[0]` |
| `Records.CleanDeps` | task.py:36-38 | no returned name contains `@`, and there are never more names than entries |
| `Records.CleanDepsAppend` | task.py:36-38 | cleaning works entry by entry, so the output keeps the order of the entries |
| `Records.CleanDepsSingle` | task.py:38 | a blank entry contributes nothing, any other entry contributes its cleaned name |
| `Records.CleanDepsNoBlank` | task.py:36-38 | with no blank entry there is exactly one name per entry, the k-th name cleaned from the k-th entry |
| `Records.DependencyNamesPerEntry` | task.py:36-38 | when no comma-separated entry is blank, the list has one name per entry (commas + 1), each the stripped entry cut at `@` |
| `Records.DependencyNames` | task.py:36-38 | the cleaned names of the text after the first `->`; `DependencyNamesPerEntry`, `CleanDepsAppend`, `CleanDepsSingle` and `VersionOnlyEntry` describe it |
| `Records.VersionOnlyEntry` | task.py:38 | the entry `@1.0` yields the empty name |
| `Records.ExamineRecord` | task.py:29-39 | what one record decides: failure for a malformed header, its dependency names when the header matches, nothing otherwise (`MalformedHeaderAborts`, `FirstMatchWins`) |
| `Records.Examine` | task.py:23-39 | what one line decides; a blank or arrow-less line decides nothing (`IgnorableLine`) |
| `Records.Scan` | task.py:22-39 | the top-to-bottom scan: the first decisive line's verdict (`ScanDecidedAt`, `ScanExtend`, `NoMatchingLine`) |
| `Records.Lookup` | task.py:22-45 | the result of `_parse_test_file` on readable lines: `FirstMatchWins`, `LaterLinesIgnored`, `IgnorableLine`, `MalformedHeaderAborts` and `NoMatchingLine` describe it, and `ParseTestFile` is proved equal to it |
| `Records.FirstDecisiveNoMatch` | task.py:22-45 | the scan finds nothing exactly when no line decides anything |
| `Records.FirstDecisiveAt` | task.py:22-39 | in a sequence of verdicts, the first one that is not "no match" is the result of the search |
| `Records.FirstDecisiveAppend` | task.py:22-39 | on a concatenation, the second part is read only if the first decides nothing |
| `Records.ScanExtend` | task.py:22-39 | after a prefix that decided nothing, one more line's verdict becomes the scan's, and the whole file's if it decides anything |
| `Records.ScanDecidedAt` | task.py:22-39 | scanning the file's lines yields the verdict of the first line that matches or has a malformed header, whatever lines follow it |
| `Records.FirstMatchWins` | task.py:22-39 | the result is the dependency list of the first line that matches when no earlier line decided anything |
| `Records.LaterLinesIgnored` | task.py:35-39 | once a prefix of the file has decided the lookup, appending lines never changes it |
| `Records.NoMatchingLine` | task.py:45 | when no line matches or fails, the result is empty |
| `Records.IgnorableLine` | task.py:23-24 | a blank or arrow-less line decides nothing and can be removed anywhere without changing the scan |
| `Records.MalformedHeaderAborts` | task.py:29-45 | a header with two or more `@` reached before any decisive line makes the scan fail and the result empty, whatever follows |
| `Records.VersionedQuery` | task.py:35 | for a non-empty query version a header matches exactly when it reads `package@version`; so a header without `@` never matches |
| `Records.UnversionedQuery` | task.py:35 | for an empty query version a header matches an `@`-free package exactly when it is the package alone or the package followed by `@` and any version |
| `Records.ArrowParts` | task.py:25-26 | for a line `head -> segment [-> ...]` with no `->` in `head` or `segment`, `split('->')` yields `head` first and `segment` second |
| `Records.ArrowSegments` | task.py:25-36 | the header is the stripped text before the first `->` and the dependencies come only from the text between the first and second `->` |
| `Repository.ReadAndLookup` | task.py:18-45 | an unreadable path gives the empty list, a readable one the `Lookup` of its lines; `ParseTestFile` is proved equal to it |
| `Repository.PackageDependencies` | task.py:11-16 | a non-`file://` locator gives the empty list, otherwise the file named by the rest of the locator is searched; `GetPackageDependencies` is proved equal to it |
| `Repository.CargoRepository.constructor` | task.py:8-9 | the stored locator is the given one with its trailing `/` removed |
| `Repository.CargoRepository.GetPackageDependencies` | task.py:11-16 | a locator not starting with `file://` yields the empty list; otherwise the file named by the rest of the locator is read and searched |
| `Repository.CargoRepository.ParseTestFile` | task.py:18-45 | the loop returns exactly `Lookup` of the file's lines, or the empty list when the file cannot be read |
| `Repository.BareSchemeReadsNothing` | task.py:9-16 | `file:` followed only by slashes (such as `file://`) normalises to `file:`, which is no `file://` locator, so nothing is read |
| `Repository.TrailingSlashIgnored` | task.py:9 | a trailing `/` on the locator never changes the answer |
| `Config.IntText` | task.py:100 | the text `int()` reads: no tab, line feed, vertical tab, form feed, carriage return or space at either end |
| `Config.ParseInt` | task.py:100 | `int()`: an optional sign and at most 4300 ASCII digits inside skippable whitespace; `ParseShowInt`, `ParseIntIgnoresSpace`, `TooManyDigits` and `SeparatorNotSkipped` describe it |
| `Config.ParseLiteral` | task.py:100 | the numeral itself, once the whitespace is skipped; `ParseShowInt` reads every convertible integer's text back and `TooManyDigits` refuses longer numerals |
| `Config.ValidDepth` | task.py:99-103 | an empty depth, or one `int()` reads as a value above 0; `ValidateStage1` accepts exactly these |
| `Config.Numeral` | task.py:100 | the decimal numeral of a natural number is a non-empty digit string that reads back as that number |
| `Config.ParseShowInt` | task.py:100 | the `int()` model reads back the decimal text of every integer within CPython's default 4300-digit limit, which is where `str(i)` succeeds |
| `Config.TooManyDigits` | task.py:100 | a numeral of more than 4300 digits makes `int()` raise, so such a depth is reported as not a number |
| `Config.ParseIntIgnoresSpace` | task.py:100 | `int` reads the same value from a text and from that text without the whitespace `int` skips |
| `Config.SeparatorNotSkipped` | task.py:100 | `int` does not skip the information separators that `strip()` removes: for any digits `d`, `"\x1c" + d` strips to `d` but makes `int` raise (for example `int("\x1c5")`) |
| `Config.ValidateStage1` | task.py:77-106 | status 0 exactly when the name and locator are present and the depth is empty or a positive integer; the error list holds exactly the missing name and then the missing locator, each once; a non-numeric depth and a depth at or below 0 are told apart |

## Left out

- Opening and reading the file, and the diagnostics printed for a missing or unreadable file (task.py:20-21, 40-43): I/O; the file system is a map parameter and only the empty result is kept.
- Splitting the file into lines: the file is given as its sequence of lines.
- Unicode whitespace beyond ASCII in `strip()` and `int()`, and underscores or non-ASCII digits in `int()`: the model fixes ASCII whitespace sets (`IsSpace` for `strip()`, the narrower `IsIntSpace` for `int()`) and an optional sign plus ASCII digits.
- Reading the INI file, `os.path.exists`, the `[DEFAULT]` section check and all console output of `run_stage1` and `run_stage2` (task.py:47-76, 83-97, 108-152): configuration I/O and reporting.
- The default parameter values of `run_stage2` (task.py:134-136): plain constants passed to the modelled lookup.
- `argparse` and stage dispatch in `main` (task.py:154-169): command-line wiring.
- Config.ParseInt: the digit limit is CPython's default of 4300; a limit changed through `sys.set_int_max_str_digits` or `PYTHONINTMAXSTRDIGITS`, and interpreters without the limit, are not modelled.
- Config.ValidateStage1: the messages are reported as `ConfigError` values, not the printed text.
