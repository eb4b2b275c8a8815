# UFC release renamer, modelled in Dafny

`ufc.py` is a post-processing script for SABnzbd downloads of UFC events. It
reads a release name such as `UFC.Fight.Night.248.Yan.vs.Figueiredo.Prelims.1080p`
and builds an event record from it:

- the event number (`UFC 300`, `UFC Fight Night 248`, `UFC on ESPN 5`);
- the fighter names (`Yan vs Figueiredo`);
- the edition (`edition-Prelims`, `edition-Early Prelims` or `edition-Main Event`);
- the resolution (`1080p`).

From the record it derives the destination
`/mnt/media/Sport/<event> <names>/<event> <names> {<edition>} [<resolution>].<ext>`.
Then it moves the download there. When the folder already holds the same
edition, the move depends on how the two resolutions compare.

The project models that logic, and nothing of the command-line or
filesystem plumbing around it. It has nine modules, one file each:

- `Text` (text.dfy) covers the Python string built-ins the script uses, all over `seq<char>`:
  - ASCII case folding;
  - `str.replace`;
  - `" ".join(filter(None, …))`;
  - `int()` of a digit string.
- `Resolution` (resolution.dfy) models `get_resolution`. It first does the alias rewrite `re.sub(r'4k|uhd', …)` exactly as written, then searches `\d{3,4}[pi]`.
- `Events` (events.dfy) models the event-number regex of `extract_info`. It is a three-way alternation, tried in order at each position and searched leftmost.
- `Scan` (scan.dfy) models the `re.finditer` scan for fighter names and editions:
  - the matcher for each alternative, including the greedy backtracking of `(word )+vs`;
  - the list of non-overlapping matches;
  - the loop in which the last match wins (method `ScanFields`);
  - `str.title`, `str.capitalize` and `EDITION_MAP`.
- `Extract` (extract.dfy) models `extract_info` and its fallback `find_names`:
  - the normalisation;
  - the strict exit paths, as an `Outcome` value;
  - the record;
  - the method versions `ExtractInfo` and `FindNames`, proved equal to the functions.
- `Format` (format.dfy) models `construct_path`. The method `FillParts` fills two arrays index by index, as the Python lists are. It is proved against the function `Filled`.
- `Editions` (editions.dfy) models `get_editions`. This loop builds the dictionary of files keyed by edition.
- `Placement` (placement.dfy) models `move_file` and `rename_and_move` as decisions over the answers the filesystem gives. Effects are returned as a list, not performed.
- `Largest` (largest.dfy) models `find_largest_video_file`.

Filesystem queries become parameters:

| query | parameter |
|---|---|
| `Path.exists` | a boolean |
| `iterdir` | a sequence of entries |
| the `glob` of `DESTINATION_FOLDER` | a sequence of `(name, isDir)` |
| `stat().st_size` | a number |

A file's `stem` and `suffix` are given as separate strings. Effects are the
list `MakeDirs` / `CopyFile` / `Unlink`. An `OSError` is modelled as a
`Fault` at a given effect. The configuration constants are parameters or
constants:

- `DESTINATION_FOLDER`, `FORMAT_ORDER`, `FORMAT_TOKENS` and `FORMAT_FOLDER` form a `Layout`; `DefaultLayout` holds the values in the file.
- `STRICT_MATCHING` is the parameter `strictMatching`.
- `REPLACE_SAME_RES` is the parameter `replaceSameRes`.

Behaviour of the code that the model keeps as written:

- There is no parent-folder retry when the event number is missing.
- `find_names` does not recurse into directories.
- The resolution is returned verbatim, not lower-cased.
- There is no sub-folder rule and no path-safety check.
- The folder name uses the bracketed value (ufc.py:342).
- An existing file with the same resolution, with `REPLACE_SAME_RES` off, gives exit code 0.
- A dry run still unlinks the replaced file (ufc.py:436-444).

## Model

| member | source | states |
|---|---|---|
| Text.ReplaceOneChar | ufc.py:287 | `str.replace` with a replacement of the pattern's length that differs from it at one offset keeps the length and changes only the character at that offset of each occurrence |
| Text.ReplaceKeepsReplacement | ufc.py:287 | `str.replace` rewrites every occurrence, so the replacement occurs in the result whenever the pattern occurred in the input |
| Text.NonEmpty | ufc.py:345-348 | `filter(None, xs)` keeps exactly the non-empty strings of its input, never more of them than it was given |
| Text.NonEmptyConcat | ufc.py:345-348 | `filter(None, xs)` keeps the order of its input: filtering a concatenation concatenates the filtered parts |
| Text.DecimalValue | ufc.py:144 | `int()` of an n-digit ASCII string is below 10^n |
| Resolution.TokenAt | ufc.py:136 | a match at `i` spans exactly a `\d{3,4}[pi]` token |
| Resolution.TokenAtIsComplete | ufc.py:136 | no match at `i` exactly when no `\d{3,4}[pi]` token starts at `i`; a match is the longest token there, as the greedy `{3,4}` gives |
| Resolution.FirstToken | ufc.py:136 | `re.search`: the position found holds a token and no earlier position does; none is found only when no position holds one |
| Resolution.ResolutionIsFirstToken | ufc.py:119-144 | get_resolution returns None exactly when the rewritten name holds no token; otherwise, in scan mode it returns the leftmost token verbatim, else the integer of its 3 or 4 digits, below 10000 |
| Resolution.AtMostTwoAliasesRewritten | ufc.py:135 | as written, at most two aliases are rewritten: `4k4k4k` becomes `2160p2160p4k` |
| Resolution.UpperCaseAliasIsMissed | ufc.py:135 | as written, `ufc 300 4K` has no resolution, because `re.IGNORECASE` lands in the `count` argument and the upper-case `4K` is not rewritten |
| Resolution.IntendedLeavesNoAlias | ufc.py:135 | after the intended rewrite no `4k` or `uhd` is left in any letter case |
| Resolution.HeadOfRewrite | ufc.py:135 | the intended rewrite starts with `2` of `2160p` at an alias, and otherwise with the character copied |
| Resolution.UpperCaseAliasIsFoundWhenIntended | ufc.py:135-142 | with the intended rewrite, `ufc 300 4K` has the resolution `2160p` |
| Events.DigitRun | ufc.py:250 | greedy `\d{1,4}`: the run holds only digits, is at most 4 long, and stops at a non-digit or at the cap |
| Events.WordRun | ufc.py:250 | greedy `\w+`: a maximal run of word characters |
| Events.FirstEvent | ufc.py:251 | `re.search`: the position found matches and no earlier one does; none is found only when no position matches |
| Events.UpperString | ufc.py:267 | `.upper()` upper-cases every character and keeps the length |
| Events.EventTextShape | ufc.py:262-267 | each alternative renders as `UFC <1-4 digits>`, `UFC Fight Night <1-4 digits>` or `UFC on <WORD> <1-4 digits>` |
| Events.UfcOnShape | ufc.py:250-267 | the `ufc on` group renders as an upper-cased word, one space, then 1 to 4 digits |
| Events.EventNumberIsLeftmost | ufc.py:250-267 | the event number is '' exactly when no alternative matches anywhere; otherwise it renders the leftmost match and has one of the three shapes |
| Events.FightNightExample | ufc.py:250-265 | alternatives are tried in order: `ufc fight night 5` gives `UFC Fight Night 5` |
| Scan.NameRun | ufc.py:274 | a maximal run of `[a-z-]` characters |
| Scan.NameWordAt | ufc.py:274 | a name word before `vs` ends with its space |
| Scan.OpponentWordAt | ufc.py:274 | a name word after `vs` starts after a space |
| Scan.OpponentWords | ufc.py:274 | the greedy repetition of words after `vs` ends inside the string |
| Scan.TrailingDigit | ufc.py:274 | the optional rematch digit adds a space and one digit or nothing |
| Scan.VersusAt | ufc.py:274 | a names match has `vs` between spaces at the position found and ends after an opponent word |
| Scan.MoreNames | ufc.py:274 | the backtracking of `(word )+` still puts `vs` between spaces |
| Scan.NamesAt | ufc.py:274 | a names match at `i` has `vs` after `i`, between spaces, and ends after it |
| Scan.EditionAt | ufc.py:278 | an edition match is non-empty and inside the string |
| Scan.HitAt | ufc.py:272-279 | a match of the whole pattern starts where it is tried and is non-empty |
| Scan.MatchesFrom | ufc.py:281 | every element of the finditer scan lies inside the string, after the start |
| Scan.Matches | ufc.py:281 | every element of the scan is a non-empty span of the string |
| Scan.MatchesAreHits | ufc.py:281 | each element of the scan is the match found at its start |
| Scan.MatchesDoNotOverlap | ufc.py:281 | matches come left to right without overlapping, and no match starts between one match's end and the next one's start |
| Scan.MatchesSkipOnlyMisses | ufc.py:281 | no match starts before the first element, and none at all when the scan is empty |
| Scan.MatchesReachTheEnd | ufc.py:281 | no match starts after the last element |
| Scan.TitleCase | ufc.py:286 | `str.title` keeps the length |
| Scan.TitleCaseIsTitled | ufc.py:286 | after `str.title` every word starts upper-case and continues lower-case, with a hyphen starting a new word; other characters are kept |
| Scan.FighterNames | ufc.py:285-287 | the fighter names keep the length of the names group |
| Scan.FighterNamesTitled | ufc.py:285-287 | each character of the fighter names is that of the names group up to case, and is what `str.title` gives, except the `V` of each ` Vs `, which becomes `v`; so every word starts upper-case and continues lower-case, except the `v` of a ` vs ` infix |
| Scan.NamesHoldVersus | ufc.py:285-287 | the fighter names built from a names match contain ` vs ` |
| Scan.CapitalizeWords | ufc.py:291 | `capitalize` of each word keeps the length |
| Scan.CapitalizeMatch | ufc.py:290-291 | an edition match is capitalised the same whatever its letter case |
| Scan.EditionLabels | ufc.py:278-293 | an edition match is labelled `Early Prelims` when `early prelims` matched, and `Prelims` otherwise, `preliminary` included |
| Scan.ScanFields | ufc.py:281-293 | the loop leaves in `fighter_names` and `edition` the values of the last match of each kind |
| Scan.LastNamesWins | ufc.py:283-287 | the names are '' exactly when no names match was found; otherwise they come from a names match with none after it |
| Scan.LastEditionIsLast | ufc.py:289-293 | the edition is '' exactly when no edition match was found; otherwise it is the label of an edition match with none after it |
| Scan.LastEditionWins | ufc.py:289-293 | the edition is '' exactly when no edition match was found, and otherwise the label of an edition match with none after it, one of the two labels |
| Extract.Normalize | ufc.py:243 | every `.`, `_` and whitespace character becomes exactly one space, all else is kept, and the length is preserved |
| Extract.FindNames | ufc.py:216-222 | the loop with its early return computes `FolderNames` |
| Extract.FolderNamesEmpty | ufc.py:216-222 | find_names returns '' exactly when no listed event folder parses to fighter names |
| Extract.FolderNamesIsFirst | ufc.py:216-220 | find_names returns the names of the first listed event folder that has any |
| Extract.FolderNamesHoldVersus | ufc.py:218-220 | names found in a folder name also contain ` vs ` and are title-cased |
| Extract.ExtractInfo | ufc.py:225-303 | the method computes `Extraction`: the event search, the scan loop, the fallback to find_names and the record |
| Extract.ExitsOnlyWithoutEvent | ufc.py:253-260 | extract_info never raises. It exits exactly when strict and no event number was found, with code 1 and the "Unable to extract" message under STRICT_MATCHING and silently with code 0 otherwise |
| Extract.EditionFieldIsLabel | ufc.py:289-301 | the edition field is one of the three `edition-` labels, and `edition-Main Event` exactly when no edition matched |
| Extract.ResolutionFieldIsToken | ufc.py:302 | the resolution field is '' exactly when the normalised name holds no token after the rewrite, and otherwise a token |
| Extract.ScannedNamesHoldVersus | ufc.py:283-287 | scanned fighter names are '' or contain ` vs `, and are title-cased |
| Extract.LooseParse | ufc.py:253-296 | a non-strict parse never exits and never consults find_names |
| Extract.RecordShape | ufc.py:245-303 | the shape of every returned record: <br>- the event number is '' only in a non-strict parse without a match, and otherwise has one of the three shapes; <br>- the names are '' or contain ` vs `, and are title-cased; <br>- the resolution is '' or a token; <br>- the edition is one of the three labels |
| Format.Slot | ufc.py:339-342 | Python's list index: a slot within the list or an IndexError |
| Format.Step | ufc.py:323-342 | one loop iteration keeps both lists at `len(FORMAT_ORDER)` |
| Format.Filled | ufc.py:319-342 | the lists after k iterations have the length of FORMAT_ORDER |
| Format.FailureIsFinal | ufc.py:327-329 | once the loop exits or raises, later items change nothing |
| Format.FillParts | ufc.py:319-342 | filling the two arrays in place computes `Filled` |
| Format.FieldLandsAtItsIndex | ufc.py:331-342 | each non-empty field lands, bracketed per FORMAT_TOKENS, at its FORMAT_ORDER index, and in the folder list when it is a FORMAT_FOLDER key, unless a later field takes the same index |
| Format.FolderHoldsOnlyFolderKeys | ufc.py:341-342 | every non-empty folder-list entry is a FORMAT_FOLDER field, bracketed, placed at its index |
| Format.DefaultLayoutParts | ufc.py:319-342 | with the file's configuration the lists are `[event, names, {edition}, [resolution]]` and `[event, names, '', '']`, empty fields left empty |
| Format.DefaultTarget | ufc.py:344-350 | with the file's configuration the target is `/mnt/media/Sport/<event> <names>` / `<event> <names> {<edition>} [<resolution>]<suffix>`, with an absent name or resolution left out together with its space |
| Format.Construction | ufc.py:306-350 | a path is built only from the record extract_info returned in strict mode |
| Format.ConstructPath | ufc.py:306-350 | the method computes `Construction` |
| Editions.GetEditions | ufc.py:162-174 | the loop computes `EditionsOf`, the dictionary of files keyed by edition |
| Editions.Store | ufc.py:164-173 | one iteration stores a file under its edition when its event number is the one asked for, and leaves the dictionary alone otherwise |
| Editions.ParseStem | ufc.py:165-166 | the non-strict parse of a stem always returns a record |
| Editions.KeysAreEditions | ufc.py:167-170 | every key is the edition of a stored file, and every stored file has the event number asked for |
| Editions.KeysAreEditionLabels | ufc.py:166-168 | every key is one of the three `edition-` labels |
| Editions.LaterFilesOverwrite | ufc.py:168 | each key holds the entry of the last file of that edition, and every such file has its key present |
| Editions.StoredResolutionsAreTokens | ufc.py:172 | every stored resolution is '' or a token |
| Editions.EventNumberIsNeverAKey | ufc.py:412-413 | no event number, and not '', is ever a key of the dictionary |
| Placement.BaseName | ufc.py:427 | the base name is the suffix of the path after its last `/`: it holds no `/`, and is the whole path or follows a `/` |
| Placement.MoveFile | ufc.py:353-380 | code 0 and the message `Moved <src> to <new>` in both modes. A dry run makes no change; a real move creates the folder only when it is missing, copies, and unlinks the source last |
| Placement.Attempt | ufc.py:407-449 | an OSError stops the effects where it is raised and reports `Could not move file: …` with code 1; without one the report is unchanged |
| Placement.Placed | ufc.py:400-416 | as written: a target that exists gives code 1 and no effect; otherwise the file always moves |
| Placement.Rank | ufc.py:421-422 | `int(res[:-1] or default)`: a missing resolution ranks as the default |
| Placement.ResolutionRule | ufc.py:424-446 | the new file is refused as lower exactly when its rank is below the existing one's, and counts as the same resolution exactly when the ranks are equal and REPLACE_SAME_RES is off; otherwise it replaces the existing file |
| Placement.RankOfParsedResolution | ufc.py:421-422 | a parsed resolution always has a rank, below 10000 when present |
| Placement.MissingResolutions | ufc.py:420-423 | on parsed resolutions int() never raises; a new file without a resolution replaces any existing one, and an existing file without one never outranks the new file |
| Placement.PlacedIntended | ufc.py:402-446 | with the lookup by edition: <br>- a target that exists fails with code 1 and no effect; <br>- any effect implies the target did not exist; <br>- a missing folder or a bulk rename moves the file |
| Placement.OnlyABetterFileReplaces | ufc.py:424-446 | when the folder holds the edition: <br>- a move or delete happens only when the new file replaces the old one; <br>- a higher existing resolution gives code 1 and the same resolution code 0, both with no effect; <br>- a replacement unlinks the old file when its path differs from the target, then moves the new file, with the move's message and code |
| Placement.ParsedRecordsNeverCrash | ufc.py:421-422 | with a parsed record and the dictionary of its folder, the intended placement never raises |
| Placement.RenameAndMove | ufc.py:383-449 | rename_and_move as written: <br>- a failed construction exits or raises; <br>- an existing target gives code 1 with no effect; <br>- otherwise the file moves to the constructed path |
| Placement.RenameAndMoveIntended | ufc.py:383-449 | rename_and_move as intended raises only where construct_path does |
| Placement.LookupByEventNumberMisses | ufc.py:412-416 | as written the file moves in beside a same-edition file of higher resolution, while the intended lookup refuses with code 1 and moves nothing |
| Largest.Videos | ufc.py:192-195 | the filter keeps exactly the files with one of the four video suffixes |
| Largest.VideosConcat | ufc.py:192-195 | the filter keeps the listing order: filtering a concatenation concatenates the filtered parts |
| Largest.FindLargestVideoFile | ufc.py:177-200 | None exactly when there is no video file; otherwise the first video file of largest size |

## Left out

- `main`, `parse_args`, the bulk directory walk with `rmdir`/`rmtree`, `check_path`, `exit_log`'s printing and `sys.exit`. These are orchestration and I/O. Exits are returned as `Exit(message, code)`, and uncaught exceptions as `Crash`.
- Filesystem queries and effects are not performed. They are inputs (`Disk`, entry sequences) and an effect list. `shutil.move` versus `copy2` is not modelled: `not new_path.iterdir()` is never true, so the effect is always a copy. This assumes Python 3.12 or earlier, where `iterdir` returns a lazy generator. From Python 3.13 `iterdir` lists the directory when called, so on a target that does not exist yet it raises FileNotFoundError (NotADirectoryError once it exists as a file); ufc.py:448 catches that and reports "Could not move file" with code 1. That behaviour is not modelled.
- Unicode: `\d`, `\w`, `\s`, IGNORECASE, `.upper()`, `str.title` and `str.capitalize` are modelled on ASCII only. Non-ASCII digits, letters and spaces are treated as other characters.
- Strings are not Unicode-normalised.
- pathlib: paths are plain strings joined with `/`. `DESTINATION_FOLDER` loses its trailing slash, `Path` normalisation is not modelled, and stems and suffixes are inputs.
- The order of `glob` and `iterdir` is whatever the input sequence gives.
- find_largest_video_file returns the chosen entry, not a `Path`, and sizes are inputs.
- Editions.GetEditions: the source calls extract_info twice per entry, and only for files. The model parses each entry once. The call is a pure function of the stem, and entries that are not files are ignored by `Indexed`, so the dictionary is the same.
- Placement.Placed: ufc.py:417-446 is unreachable as written, because the lookup never hits, so the model has no branch for it. Read literally, that code would also fail: `existing` would be an entry dictionary whose keys are never an edition, and `existing.name` and `existing.unlink()` would raise.
- Placement.PlacedIntended reads ufc.py:415-446 as meant. The existing entry is the one stored under the record's edition. Its name is the base name of its stored path, and it is replaced when that path differs from the target.
- `str != Path` at ufc.py:436 is always true in Python; PlacedIntended compares the path strings. A failing unlink of the replaced file is caught and only printed at ufc.py:443-444, so the model never faults on it. The messages printed on that path are not modelled.
- Placement.Rank: `int()` also accepts surrounding whitespace, an underscore or a sign. Parsed resolutions are digits only, so any other text is reported as the ValueError.

## Findings

| source | as written | input that shows it | evidently intended | confidence | as-written member | corrected member |
|---|---|---|---|---|---|---|
| ufc.py:135 | the `re.sub` of the `4k` / `uhd` aliases passes `re.IGNORECASE` as `count`, so only lower-case aliases are rewritten, at most twice | `ufc 300 4K` has no resolution | `flags=re.IGNORECASE`, so the name gets `2160p` | not executed | Resolution.UpperCaseAliasIsMissed and Resolution.AtMostTwoAliasesRewritten (on Resolution.SubAliases) | Resolution.GetResolutionIntended, with Resolution.IntendedLeavesNoAlias and Resolution.UpperCaseAliasIsFoundWhenIntended |
| ufc.py:412-413 | the map of get_editions is looked up by the event number, which is never a key, so the resolution comparison never runs | a folder holding `{edition-Main Event} [2160p]` of the same event receives a new 720p file of the same edition, which is moved in | look up by the record's edition, so the new file is refused with code 1 | not executed | Placement.LookupByEventNumberMisses (on Placement.Placed and Editions.EventNumberIsNeverAKey) | Placement.PlacedIntended and Placement.RenameAndMoveIntended, with Placement.OnlyABetterFileReplaces and Placement.ParsedRecordsNeverCrash |

The main pipeline, `Extract.Extraction` and `Placement.RenameAndMove`,
follows the code as written: that is what the script does to a download. The
corrected definitions stand beside it, and `RenameAndMoveIntended` composes
them.
