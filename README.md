# Picopatt file metadata and consolidation, in Dafny

This project models the data-loading core of the Picopatt measurement pipeline (`functions.py`). Mobile sensor sessions are recorded along three routes of Montpellier: Antigone, the Boulevards and the Écusson. Each session is a CSV or Excel file named like `picopatt_montpellier_antigone_20241107_1122.csv`. The core does four things:

- **Track classifiers.** `normalize_track` cleans a free-text route label and classifies it. `infer_track_from_filename` reads the route from a file name. Both use case-insensitive, accent-insensitive substring tests in a fixed priority order.
- **Timestamp parser.** `extract_info_from_filename` finds the leftmost `\d{8}_\d{4}` token in a name. It rebuilds the `YYYY-MM-DD` date text and buckets the hour into the time-of-day slots M1–M4 or UNK. `assign_mslot_from_filename_winter` is a second path that first localizes the timestamp to Europe/Paris.
- **`read_any`.** It reads one file. Spreadsheets go to the Excel reader. Any other file is tried with the separators `,`, `;` and tab, and the first parse that does not raise and has at least five columns is kept. Then every row gets the file name in `__source_file`.
- **`load_all`.** It selects the `.csv`/`.xlsx`/`.xls` files of a directory tree and reads them in sorted path order. It tags each frame with the `date`, `M_slot` and `track_id` taken from the file name, and concatenates the frames.

Modules:

| module | contents |
|---|---|
| `Wrappers` | `Option` and `Result` |
| `Text` | the Python string builtins the core uses (`lower`, `strip`, `replace`, `in`) and `strip_accents` |
| `Tracks` | the two classifiers |
| `Calendar` | the Gregorian calendar and the range of pandas nanosecond timestamps |
| `Timestamps` | the token search, the slot table and both slot paths |
| `Tables` | pandas frames as values (see below), column assignment and `pd.concat` |
| `Reader` | `read_any` |
| `Loader` | `load_all` |

Pure source functions are Dafny functions, and the lemmas beside them state their properties. The two loops of the source are methods, each proved equal to a specification function:

- `Reader.ReadAny` is the separator loop of `read_any`.
- `Loader.LoadFiles` is the loop of `load_all`, with `Loader.LoadFile` as its body.

Modelling choices:

- **Frames.** A pandas DataFrame is a `Tables.Table`: a list of column names plus rows, where each row maps column names to cells. `pd.concat(..., sort=False)` takes the union of the columns in order of first appearance and fills absent cells with missing values.
- **I/O as parameters.**
  - The file readers `pd.read_csv(p, sep=…)` and `pd.read_excel(p)` are the oracle `Reader.Disk`. It says what each reader returns for a path, or that it raises.
  - The recursive directory listing `data_dir.rglob("*")` is the `listing` argument.
  - Whether `tz_localize` accepts a wall-clock time in Europe/Paris is the `localizes` argument. It depends on the time-zone database.
- **Exceptions.** Exceptions are `Err` values:
  - `ReadError.Unreadable` is the `ValueError` of `read_any`.
  - `LoadError.NoInputFiles` is the `assert paths` of `load_all`.
  - `LoadError.BadDate` is `pd.to_datetime` raising on a date such as `20241399`.
  - `TimestampError` covers `pd.Timestamp` and `tz_localize` raising in the winter path.

Two behaviours of the code that a reader might not expect, both followed by the model:

- **Slot of a name without a timestamp.** `assign_mslot_from_filename_winter` answers `"UNK"` for a name without a token (functions.py:61-62). `extract_info_from_filename` answers `(None, None)` instead (functions.py:109-110), so `load_all` stores a missing `M_slot` for such a file (functions.py:141-143). `Loader.SlotCell` gives `Missing` there. `Timestamps.SlotOrUnknown` reads a missing slot as `UNK` only where the two slot paths are compared.
- **Ill-formed timestamps.** A name without a token loads with a missing date and slot. A token whose date does not exist, such as `20241399_1000`, is different: `pd.to_datetime` raises on it (functions.py:142) and the whole load fails. This is `LoadError.BadDate`.

## Model

| member | source | states |
|---|---|---|
| Text.LowerChar | functions.py:26 | an ASCII capital becomes its own small letter (code point plus 32); every other ASCII character is kept |
| Text.Lower | functions.py:26 | `lower()` keeps the length and lowers each character on its own |
| Text.LowerAppend | functions.py:39 | lowering distributes over concatenation |
| Text.OccursContains | functions.py:28-33 | `w in s` holds whenever `w` occurs at some index of `s` |
| Text.ContainsOccurs | functions.py:40-45 | `w in s` holds only when `w` occurs at some index of `s`, which the lemma returns |
| Text.MissingLetter | functions.py:28-33 | a word holding a letter the text lacks is not in the text |
| Text.LowerEqualsIff | functions.py:85 | the character-by-character case-insensitive test holds exactly when the lowered text equals the word |
| Text.LowerFixed | functions.py:26 | lowering leaves text with no ASCII capital and no non-ASCII character unchanged |
| Text.StripLeft | functions.py:26 | left `strip()` removes a prefix made only of whitespace, and what remains does not start with whitespace |
| Text.StripRight | functions.py:26 | right `strip()` removes a suffix made only of whitespace, and what remains does not end with whitespace |
| Text.IsSpace | functions.py:26 | `isspace()`: no ASCII letter or digit is whitespace |
| Text.Strip | functions.py:26 | `strip()` never lengthens the text; neither end of its result is whitespace; text without whitespace is kept whole and text made only of whitespace becomes empty |
| Text.StripKeepsWord | functions.py:26-33 | stripping whitespace never changes whether a non-empty, space-free word occurs in a label |
| Text.ReplaceAll | functions.py:27 | `replace(pat, rep)` with a non-empty pattern leaves text in which the pattern does not occur unchanged |
| Text.ReplaceKeepsWord | functions.py:27-33 | `replace(pat, rep)` does not change whether a word occurs, when the word cannot overlap `pat` or `rep` and avoids their first letter |
| Text.ReplaceFindsReplacement | functions.py:27-30 | after `replace(pat, rep)` with `rep` extending `pat`, `rep` occurs exactly when `pat` occurred before |
| Text.Decompose | functions.py:19 | NFKD of one character: ASCII is kept; any other character is kept or becomes ASCII characters and combining marks |
| Text.IsCombining | functions.py:19 | `unicodedata.combining(c) != 0` on the block U+0300..U+036F, without U+034F; no ASCII character is a combining mark |
| Text.Nfkd | functions.py:19 | computes NFKD one character at a time; its properties are those of `Text.NfkdDecomposed`, `Text.NfkdFixed` and `Text.NfkdAppend` |
| Text.NfkdFixed | functions.py:19 | text whose every character decomposes to itself is its own NFKD |
| Text.RemoveCombining | functions.py:19 | the filter keeps no combining mark and never lengthens the text |
| Text.StripAccents | functions.py:15-19 | `strip_accents` leaves no combining character in its result |
| Text.NfkdDecomposed | functions.py:19 | after NFKD, every character is a combining mark or its own decomposition |
| Text.RemoveCombiningFixed | functions.py:19 | text without combining marks passes the filter unchanged |
| Text.RemoveCombiningDecomposed | functions.py:19 | dropping combining marks keeps text fully decomposed |
| Text.NfkdAppend | functions.py:19 | NFKD acts character by character, so it distributes over concatenation |
| Text.RemoveCombiningAppend | functions.py:19 | the combining-mark filter distributes over concatenation |
| Text.StripAccentsAppend | functions.py:19 | `strip_accents` distributes over concatenation |
| Text.StripAccentsIdempotent | functions.py:15-19 | stripping accents twice gives the same as once |
| Text.StripAccentsAscii | functions.py:19 | ASCII text has no accents to strip and comes back unchanged |
| Tracks.PriorityChain | functions.py:40-46 | the chain of `if "antigone"`, `if "boulevard"`, `if "ecusson"` answers the highest-priority track whose keyword occurs, and missing when none does |
| Tracks.FirstKeywordUnique | functions.py:28-33 | the priority rule determines at most one answer, so two classifiers that both follow it agree |
| Tracks.InferTrackFromFilename | functions.py:37-46 | computes `infer_track_from_filename`; its contract is `Tracks.InferTrackPriority` |
| Tracks.InferTrackPriority | functions.py:37-46 | `infer_track_from_filename` returns Antigone if the lowered, accent-free name contains "antigone"; otherwise Boulevards if it contains "boulevard"; otherwise Ecusson if it contains "ecusson"; otherwise missing |
| Tracks.PluralizeBoulevard | functions.py:27 | computes the `replace("boulevard", "boulevards")`; `Tracks.CleanedLabelTests` states what it keeps |
| Tracks.CleanedLabelTests | functions.py:26-33 | after `strip()` and the boulevard→boulevards rewrite, a label contains "antigone", "boulevards" or "ecusson" exactly when it contained "antigone", "boulevard" or "ecusson"; the rewrite neither creates nor destroys a match |
| Tracks.NormalizeTrack | functions.py:22-34 | a missing label gives missing; any other label gives the highest-priority track whose keyword occurs in the accent-free, lowered label (Antigone, then Boulevards, then Ecusson), and missing when none occurs |
| Tracks.ClassifiersAgree | functions.py:22-46 | on lowercase, accent-free text, `normalize_track` and `infer_track_from_filename` give the same answer |
| Tracks.NormalizedAs | functions.py:26-34 | a label whose accent-free, lower-cased form is `n` gets the answer of the chain of tests on `n` |
| Tracks.AccentedE | functions.py:19 | `strip_accents("é") == "e"` |
| Tracks.AccentInside | functions.py:19 | stripping the accents of a text whose outer parts are accent-free strips only the middle part |
| Tracks.BoulevardLabel | functions.py:22-34 | `normalize_track("Boulevard de la Révolution")` is Boulevards |
| Tracks.EcussonLabel | functions.py:22-34 | `normalize_track("ECUSSON")` is Ecusson |
| Tracks.UnknownLabel | functions.py:22-34 | `normalize_track("unknown place")` is missing |
| Tracks.AntigoneInName | functions.py:37-41 | any name holding `antigone` names the Antigone track, whatever surrounds it |
| Tracks.ConventionalFilename | functions.py:37-41 | `picopatt_montpellier_antigone_20241107_1122.csv` names the Antigone track |
| Timestamps.FindTokenFrom | functions.py:108 | the search from a position finds the leftmost `\d{8}_\d{4}` token at or after it, and nothing exactly when there is none |
| Timestamps.FindToken | functions.py:108 | `re.search` finds the leftmost token, and nothing exactly when the name holds no token |
| Timestamps.FindTokenDependsOnTokens | functions.py:108 | two names with tokens at the same positions give the same match |
| Timestamps.HourAt | functions.py:114 | the hour read from the two hour digits is below 100 |
| Timestamps.SlotOfHour | functions.py:116-126 | an hour has a slot other than UNK exactly when it is in [8, 20); then M1..M4 are the three-hour blocks from 8 |
| Timestamps.SlotBoundaries | functions.py:116-126 | 7→UNK, 8→M1, 10→M1, 11→M2, 13→M2, 14→M3, 16→M3, 17→M4, 19→M4, 20→UNK |
| Timestamps.SlotsInDayOrder | functions.py:116-126 | a later hour never gets an earlier slot |
| Timestamps.ExtractInfo | functions.py:103-128 | the date is missing exactly when the name has no token, and so is the slot; otherwise, with the leftmost token, the date is its 8 digits with `-` after the 4th and 6th, and the slot is that of its hour digits |
| Timestamps.MinutesIgnored | functions.py:112-128 | changing the two minute digits of the matched token to other digits changes neither the date nor the slot |
| Timestamps.TokenAfterPlainPrefix | functions.py:108-128 | a name made of a digit-free prefix, a token and anything gives that token's date text and the slot of its hour digits |
| Timestamps.ConventionalName | functions.py:106 | `picopatt_montpellier_antigone_20241107_1122.csv` gives date `2024-11-07` and slot M2 |
| Timestamps.NameWithoutToken | functions.py:109-110 | `no_timestamp_here.csv` gives `(None, None)` |
| Timestamps.WallClockAt | functions.py:64-65 | the wall-clock time built from the token has the token's hour digits as its hour |
| Timestamps.AssignSlotWinter | functions.py:54-80 | without a token the answer is UNK; otherwise it raises as not a timestamp exactly when the written date and time do not exist or are out of pandas' range, raises as not localizable exactly when Paris time skips or repeats it, and answers otherwise |
| Timestamps.WinterPathAgrees | functions.py:60-80 | whenever the time-zone path answers, its slot is the one `extract_info_from_filename` gives (UNK for a missing slot); it always answers UNK for a name without a token |
| Calendar.DaysInMonth | functions.py:66 | a month has 28 to 31 days, and February has 29 exactly in leap years |
| Calendar.Representable | functions.py:66 | the dates and times pandas accepts: a real calendar time within the nanosecond range; `Calendar.RangeEdges` and `Calendar.LeapDay` state its edges |
| Calendar.LeapDay | functions.py:142 | within pandas' range, 29 February exists exactly in leap years |
| Calendar.RangeEdges | functions.py:66 | the first and last representable minutes are 1677-09-21 00:13 and 2262-04-11 23:47; 1900-02-29 is refused and 2000-02-29 accepted |
| Tables.SetColumn | functions.py:99 | `df[name] = v` keeps the row count, adds the column at the end when it is new, puts `v` in every row, and keeps every other cell |
| Tables.SetColumnWf | functions.py:99 | assigning a column keeps a frame well-formed: columns distinct, each row holding exactly these columns |
| Tables.SetColumnOverwrites | functions.py:142-147 | assigning the same column twice leaves only the second value |
| Tables.Union | functions.py:153 | the merged column list holds the columns of both lists, keeps the first list as its prefix, and has no duplicates when the first list has none |
| Tables.Concat | functions.py:153 | computes `pd.concat`; `Tables.ConcatRowCount`, `Tables.ConcatColumns`, `Tables.ConcatRow` and `Tables.ConcatWf` state its properties |
| Tables.AllRowsCount | functions.py:153 | the concatenated rows number the sum of the frames' row counts |
| Tables.AllColumnsSet | functions.py:153 | a column is in the concatenation exactly when some frame has it |
| Tables.AllColumnsDistinct | functions.py:153 | the concatenated columns are distinct |
| Tables.UnionOfNew | functions.py:153 | merging columns that are all new appends them in order |
| Tables.AllColumnsStartWithFirst | functions.py:153 | the first frame's columns come first, in their order |
| Tables.AllRowsBlock | functions.py:153 | row `j` of frame `k` sits at the sum of the earlier frames' row counts plus `j`, so frame order then in-frame order is kept |
| Tables.AllRowsMember | functions.py:153 | every concatenated row is a row of some frame |
| Tables.ConcatRowCount | functions.py:153 | `pd.concat` has as many rows as the frames together |
| Tables.ConcatColumns | functions.py:153 | `pd.concat` has distinct columns, exactly those of some frame, starting with the first frame's |
| Tables.ConcatRow | functions.py:153 | the concatenated row for row `j` of frame `k` keeps that row's cells and is missing under the columns that frame lacks |
| Tables.ConcatWf | functions.py:153 | concatenating well-formed frames gives a well-formed frame |
| Reader.Name | functions.py:99 | `p.name` is the last path component |
| Reader.RFind | functions.py:85 | the last position of a character, or -1 when there is none |
| Reader.Suffix | functions.py:85 | `p.suffix` is the end of the name from its last dot, when that dot is neither the first nor the last character; it is empty exactly when there is no such dot |
| Reader.SuffixOfExtension | functions.py:85 | a non-empty stem followed by a dotted extension has that extension as its suffix |
| Reader.IsSpreadsheet | functions.py:85 | the extension test of `read_any`; `Reader.IsSpreadsheetLower` states it |
| Reader.IsSpreadsheetLower | functions.py:85 | the spreadsheet test holds exactly when the lowered suffix is `.xlsx` or `.xls` |
| Reader.FirstUsable | functions.py:89-96 | the separator chosen is the first, in the order `,` `;` tab, whose parse did not raise and has at least five columns; none is chosen exactly when no separator qualifies |
| Reader.ReadSpec | functions.py:83-100 | what `read_any` returns or raises; `Reader.TextFileOutcome`, `Reader.NarrowFrameSkipped`, `Reader.SpreadsheetOutcome` and `Reader.SourceColumnAdded` state its properties |
| Reader.ReadAny | functions.py:83-100 | the separator loop returns what `read_any` specifies: the Excel frame for a spreadsheet, otherwise the first usable parse, with the source column added, or the matching error |
| Reader.FirstUsableIs | functions.py:89-94 | a usable separator with no usable one before it is the one chosen (the `break`) |
| Reader.TextFileOutcome | functions.py:87-98 | a text file raises `ValueError` exactly when no separator gives a usable frame; otherwise the result is the first usable frame with the source column |
| Reader.NarrowFrameSkipped | functions.py:89-94 | a comma parse that succeeds with fewer than five columns does not stop the search: a usable semicolon parse is kept |
| Reader.SpreadsheetOutcome | functions.py:85-86 | a spreadsheet's result depends only on the Excel reader, whatever the text parses would give, and it raises exactly when that reader raises |
| Reader.SourceColumnAdded | functions.py:99 | the returned frame is well-formed and every row has the file name under `__source_file` |
| Loader.Eligible | functions.py:133 | the extension test of `load_all`; `Loader.EligibleLower` states it |
| Loader.EligibleLower | functions.py:133 | the selection test holds exactly when the lowered suffix is `.csv`, `.xlsx` or `.xls`; every spreadsheet passes it |
| Loader.Candidates | functions.py:133 | the selected paths are exactly the listed eligible ones, each as often as listed |
| Loader.StrIrreflexive | functions.py:133 | no string sorts before itself |
| Loader.StrTransitive | functions.py:133 | string order is transitive |
| Loader.StrTotal | functions.py:133 | of two different strings one sorts first |
| Loader.PartsIrreflexive | functions.py:133 | no path sorts before itself |
| Loader.PartsTransitive | functions.py:133 | path order is transitive |
| Loader.PartsTotal | functions.py:133 | of two different paths one sorts first |
| Loader.NotBefore | functions.py:133 | "does not sort before" is transitive |
| Loader.Insert | functions.py:133 | inserting a path adds exactly that path |
| Loader.InsertSorted | functions.py:133 | inserting into a sorted list keeps it sorted |
| Loader.SortPaths | functions.py:133 | `sorted` returns a permutation of its input |
| Loader.SortPathsSorted | functions.py:133 | `sorted` returns its input in ascending order |
| Loader.InputsOrder | functions.py:133 | the paths read are sorted and are exactly the eligible listed paths, each as often as listed |
| Loader.ExtractedDateShaped | functions.py:113 | the date text taken from a name is four digits, `-`, two digits, `-`, two digits |
| Loader.ToDate | functions.py:142 | `pd.to_datetime(d).date()` on a `YYYY-MM-DD` text: the day, or nothing where pandas raises; `Loader.DateCellOfToken` states it |
| Loader.DateCell | functions.py:141-142 | the `date` cell of a file; `Loader.DateCellOfToken` and `Loader.LoadOneOutcome` state it |
| Loader.Tagged | functions.py:142-147 | the three column assignments of the loop body; `Loader.TaggedColumns` and `Loader.TaggedWf` state them |
| Loader.TagFile | functions.py:141-147 | tagging a read frame with what its file name tells; `Loader.TaggedFile` states it |
| Loader.LoadOne | functions.py:137-149 | loading one file fails only with a read or date error; when it succeeds, the file was read and its row count kept |
| Loader.Frames | functions.py:136-149 | the loop succeeds exactly when every file loads, with the files' frames in order; otherwise it raises the error of the first file that fails |
| Loader.FirstFailure | functions.py:137-138 | when every file before `k` loads and file `k` fails, the loop raises file `k`'s error |
| Loader.FramesExtend | functions.py:149 | a file that loads appends its frame to those before it |
| Loader.LoadSpec | functions.py:131-153 | what `load_all` returns or raises; `Loader.NoInputFilesIff`, `Loader.LoadSpecOk`, `Loader.LoadedRowCount` and `Loader.LoadedRow` state its properties |
| Loader.LoadFile | functions.py:138-149 | one pass of the loop reads the file, tags it with date, slot and track in that order, and returns what `LoadOne` specifies |
| Loader.LoadFiles | functions.py:136-149 | the loop returns what `Frames` specifies for the sorted paths |
| Loader.LoadAll | functions.py:131-153 | `load_all` returns what its specification gives: no input files, the first failure, or the concatenation of the loaded frames in sorted path order |
| Loader.NoInputFilesIff | functions.py:133-134 | `load_all` raises for lack of files exactly when no listed path has an accepted suffix, whatever the files hold |
| Loader.LoadOneOutcome | functions.py:138-142 | a read failure comes before a bad date; a bad date is raised only for a name with a token whose date cannot be parsed; a name without a token gets a missing date |
| Loader.DateCellOfToken | functions.py:141-142 | the stored date is the day written in the token, and it is refused exactly when that day at midnight is out of pandas' range or does not exist |
| Loader.TaggedWf | functions.py:142-147 | tagging keeps a frame well-formed |
| Loader.TaggedColumns | functions.py:142-147 | tagging keeps the row count, adds `date`, `M_slot` and `track_id`, gives every row those values, and keeps every other cell |
| Loader.TaggedFile | functions.py:141-147 | a tagged file's rows carry the date, slot and track read from its name, and keep all their other cells |
| Loader.LoadedFrame | functions.py:138-147 | a loaded file's frame is well-formed, has the rows read, and every row carries the file name, date, slot and track from its name |
| Loader.LoadSpecOk | functions.py:131-153 | a successful load means some file was selected, every selected file loaded, and the result is their concatenation |
| Loader.LoadedRowCount | functions.py:153 | the consolidated frame has as many rows as the files read, file by file |
| Loader.FramesWf | functions.py:136-149 | every loaded frame is well-formed |
| Loader.LoadedRow | functions.py:136-153 | row `j` of file `k` is found in the consolidated frame after the rows of the earlier files; it carries its file's name, date, slot and track, and its original cells |

## Left out

- `create_folder`: filesystem side effect, outside the loading core.
- `parse_fr_ts`: a wrapper around `pd.to_datetime` that the loading core does not call.
- `summary_stats` and `circular_mean_deg`: floating-point statistics and trigonometry.
- `pd.read_csv` and `pd.read_excel` are not modelled; the `Disk` oracle stands for what they return or whether they raise. Frames are taken to be well-formed (`Reader.DiskWf`): distinct column names, each row holding exactly them.
- `Text.Decompose`: covers the accented Latin-1 letters, Ÿ, and the Latin-1 compatibility characters A0, A8, AA, AF, B2, B3, B4, B8, B9 and BA. It leaves µ, ¼, ½ and ¾ unchanged, although NFKD maps them to μ, 1⁄4, 1⁄2 and 3⁄4. Full Unicode NFKD tables and canonical reordering are not modelled.
- `Text.IsCombining`: only the block of combining diacritical marks, U+0300..U+036F, is modelled, without the grapheme joiner U+034F, whose combining class is 0. Combining marks of other blocks, such as U+1DC0..U+1DFF, U+20D0..U+20FF, U+FE20..U+FE2F and U+3099, are kept by the model although `strip_accents` drops them.
- `Text.LowerChar`: lowers ASCII, the Latin-1 capitals, Œ and Ÿ only. Other scripts and multi-character lowercase mappings are not modelled.
- `Text.StripAccents`: models a string argument only. A missing value passed to `strip_accents` comes back unchanged, but no caller in the core passes one (`normalize_track` checks for missing first). `str(s)` of non-string labels is not modelled.
- `Tracks.NormalizeTrack`: the label is text or missing; `str(x)` of numbers and other objects is not modelled.
- `Timestamps.IsDigit`: `\d` is read as the ASCII digits; the other Unicode decimal digits that Python's `re` also matches are not modelled.
- `Timestamps.AssignSlotWinter`: the Europe/Paris time-zone rules are the `localizes` parameter, not modelled. `pd.Timestamp` is modelled as in pandas 1.x: a string always gives a nanosecond timestamp, so times outside 1677-09-21 00:13 .. 2262-04-11 23:47 raise. pandas 2.x may give a coarser resolution and accept such times, for example year 1500; that is not modelled.
- `Loader.ToDate`: accepts dates whose midnight is inside the pandas nanosecond range. Parsing by `pd.to_datetime` beyond this fixed `YYYY-MM-DD` shape is not modelled.
- The progress `print` of `load_all` and the `matplotlib` import: output only.
- Frames are values. `df[...] = …` on the freshly read frame, which nothing else references, is modelled as rebinding the local variable, so aliasing is not modelled.
- Sorting compares the path components as Python compares strings, by code point, on POSIX paths. Windows case-insensitive path ordering is not modelled.
- The `assert paths` of `load_all` is modelled as always active; running Python with `-O`, which disables it, is not modelled.
- The cell types pandas infers for parsed columns are not modelled: a parsed cell is an opaque `Datum`.
