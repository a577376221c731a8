# Cursor version scanner, modelled in Dafny

The scanner polls the Cursor download endpoint once for each platform id:
two Windows ids, three macOS ids and two Linux ids. It files each non-empty
URL it gets back under its platform and architecture; a Windows URL is
filed only when the Windows version pattern matches in it. It then recovers the release
version and the 40-character build id from those URLs, reading Windows URLs
first and Linux URLs as a fallback. From them it builds one version record
and fills in every (platform, architecture) download URL the endpoint did
not give.

That record is merged into the list of known versions. It is skipped when
its version is already known. The list is sorted in descending order of the version string and saved.
A separate formatter renders the list as a Markdown table and splices it
into the README, between the table's two header lines and whatever follows
the table.

The model covers the three core files:

- `src/scanner.py`:
  - `CursorVersionScanner` is modelled as the class `Scanner.CursorVersionScanner`.
  - The URL patterns are in `patterns.dfy`.
  - Filing and extraction are in `extraction.dfy`.
  - `_ensure_complete_downloads` is in `completion.dfy`.
  - The sort is in `version_sort.dfy`.
- `src/utils.py`: `compare_versions` and the reordering that
  `save_json_file` applies before writing, both in `utils.dfy`.
- `src/formatter.py`: `ReadmeFormatter`, as the class
  `Formatter.ReadmeFormatter`.

Python dictionaries keep insertion order, and that order is visible: it
decides the platform order in a saved record and the link order in a table
cell. So every dictionary is a sequence of (key, value) pairs
(`OrderedDict.Dict`). Assigning to a key replaces the value where the key
stands, or appends a new key at the end.

Python's `<` on strings is modelled by `Base.StrLess`, a code-point
lexicographic order. Each of the three URL patterns is a hand-written scanner,
proved to capture exactly what the pattern describes, at the leftmost
position where it matches (`Patterns.MatchAtExact`, `Patterns.Search`). The
two expressions of `update_readme` (the timestamp and the table) are not
scanners: their outcome is an input.

The network, the clock and the outcome of file writes are inputs:

- `FetchResults` maps a platform id to the URL its endpoint returned. An absent id means the request failed.
- `today` and `now` stand for the current date and time.
- `writeOk` says whether the data file or README write succeeded.

**Sort order.** `process_versions` sorts with the key
`x.get("version", "0.0.0")`. That key is the version STRING, so the order is
Python's lexicographic string order, descending and stable. Under it,
"1.9.0" is placed before "1.10.0" (`VersionSort.LexicographicNotNumeric`).

The comment above the sort (src/scanner.py:330) says "sort by version
number", and `compare_versions` (src/utils.py:106) compares numerically,
component by component (`Utils.NumericNotLexicographic`). But
`compare_versions` is never called, by the sort or anywhere else. The model follows the code: `Scanner.Process` sorts by
`VersionSort.SortDesc` on the string key.

## Model

| member | source | states |
|---|---|---|
| `Base.StrCmp` | src/utils.py:128-134 | the fallback comparison returns 1, -1 or 0 exactly when the first string is greater than, less than or equal to the second in Python's string order |
| `Base.StrLessTrichotomy` | src/scanner.py:331 | any two version keys compare one way, the other way, or are equal |
| `Base.StrLessTransitive` | src/scanner.py:331 | Python's string order on sort keys is transitive |
| `Base.StrLessAsymmetric` | src/scanner.py:331 | no two keys are each less than the other |
| `Base.Split` | src/utils.py:109-110 | `str.split('.')` yields at least one part and no part contains the separator |
| `Base.JoinSplit` | src/utils.py:109-110 | joining the split parts with the separator gives the string back |
| `Base.SplitJoin` | src/formatter.py:104 | splitting a newline-join of newline-free lines gives the lines back |
| `Base.FindChar` | src/formatter.py:39 | `str.find('\n')` is -1 exactly when there is no line break, and otherwise the index of the first one |
| `OrderedDict.Lookup` | src/scanner.py:251-252 | a dict read finds nothing exactly when the key is absent, and with unique keys it returns the value stored under the key |
| `OrderedDict.Put` | src/scanner.py:132 | `d[k] = v` appends a new key at the end and keeps the key order when the key exists |
| `OrderedDict.PutLookup` | src/scanner.py:217 | after `d[k] = v`, `k` maps to `v` and every other key maps to what it did before |
| `OrderedDict.PutUnique` | src/scanner.py:231 | assignment keeps dictionary keys unique |
| `OrderedDict.LookupConcat` | src/scanner.py:251-252 | a key is found in the first part of a dictionary before the second |
| `OrderedDict.Values` | src/scanner.py:162 | `d.values()` lists the values in insertion order |
| `Records.ReorderLookup` | src/utils.py:52-56 | after reordering, mac, windows and linux map to what they mapped to before and every other key is dropped |
| `Records.ReorderKeys` | src/utils.py:52-56 | the reordered keys are the present platforms among mac, windows, linux, in that order, once each |
| `Records.ReorderIdempotent` | src/utils.py:49-56 | reordering an already reordered downloads dictionary changes nothing |
| `Records.ReorderExplicit` | src/scanner.py:247-253 | reordering yields the present mac, windows and linux entries in that order |
| `Utils.ParseAll` | src/utils.py:109-110 | the parts parse exactly when every part is an integer, and then each value is that part's integer |
| `Utils.PaddedCmp` | src/utils.py:112-125 | the zero-padded comparison returns -1, 0 or 1 |
| `Utils.PaddedCmpDecides` | src/utils.py:118-123 | the first padded position where the lists differ decides the result |
| `Utils.PaddedCmpZero` | src/utils.py:118-125 | the result is 0 exactly when the zero-padded lists agree everywhere |
| `Utils.PaddedCmpAntisymmetric` | src/utils.py:118-125 | swapping the lists negates the result |
| `Utils.PadRight` | src/utils.py:113-116 | appending a zero component does not change the comparison |
| `Utils.VersionCompare` | src/utils.py:126-134 | when either version is not all integers, the result is the string comparison |
| `Utils.CompareVersions` | src/utils.py:106-134 | the padding loops and the component scan return the numeric comparison when both versions parse, and the string comparison otherwise |
| `Utils.VersionCompareRange` | src/utils.py:106-134 | the result is always -1, 0 or 1 |
| `Utils.VersionCompareAntisymmetric` | src/utils.py:106-134 | swapping the arguments negates the result, and a version compares equal to itself |
| `Utils.VersionCompareFirstDifference` | src/utils.py:119-123 | for numeric versions the first differing component decides |
| `Utils.TrailingZeroEqual` | src/utils.py:112-116 | a numeric version equals itself with a trailing ".0" |
| `Utils.ThreeGroupParts` | src/utils.py:109-110 | a version of three digit groups parses to the three group values |
| `Utils.NumericNotLexicographic` | src/utils.py:106-125 | "1.10.0" compares newer than "1.9.0", although it is the smaller string |
| `Utils.ReorderDownloads` | src/utils.py:52-56 | the loop over mac, windows, linux builds the reordered downloads dictionary |
| `Utils.NormaliseVersions` | src/utils.py:49-56 | every record of the list gets its downloads reordered, the list keeps its length and order |
| `Utils.NormalisedStable` | src/utils.py:49-56 | normalising twice is normalising once, version, date and build id are kept, and each platform keeps its dictionary |
| `Patterns.DottedEndSound` | src/scanner.py:128 | what the `\d+\.\d+\.\d+` scanner accepts is three digit groups followed by a non-digit |
| `Patterns.VersionThenExact` | src/scanner.py:128 | the `(\d+\.\d+\.\d+)` capture followed by a literal suffix captures `v` exactly when a dotted `v` and the suffix stand there |
| `Patterns.WinVersionAtExact` | src/scanner.py:128 | the Windows scanner captures `v` at a position exactly when `CursorSetup-x64-v.exe` or `CursorSetup-arm64-v.exe` with a dotted `v` stands there |
| `Patterns.LinuxVersionAtExact` | src/scanner.py:177 | the Linux scanner captures `v` exactly when `Cursor-v-x86_64.AppImage` or `Cursor-v-aarch64.AppImage` with a dotted `v` stands there |
| `Patterns.BuildIdAtExact` | src/scanner.py:165 | the build-id scanner captures `v` exactly when `production/v/` with 40 lower-case hex digits stands there |
| `Patterns.MatchAtExact` | src/scanner.py:164-178 | each scanner captures `v` at a position exactly when its regular expression matches there with capture `v` |
| `Patterns.FirstMatch` | src/scanner.py:164-165 | the position found matches, and no earlier position does |
| `Patterns.Search` | src/scanner.py:177-178 | `re.search(...).group(1)` is the capture at the leftmost matching position, and None when no position matches |
| `Completion.FillLookup` | src/scanner.py:229-231 | after filling, an architecture already present keeps its URL and a missing one gets the template's URL |
| `Completion.FillPrefix` | src/scanner.py:243-245 | fetched architectures keep their places at the front and synthesised ones follow |
| `Completion.FillUnique` | src/scanner.py:211-217 | filling keeps architecture keys unique |
| `Completion.CompleteWithShape` | src/scanner.py:247-253 | after completion the platform keys are exactly mac, windows, linux, and each holds its fetched dictionary filled from its template |
| `Completion.CompleteDownloadsLookup` | src/scanner.py:204-253 | each (platform, architecture) slot holds the fetched URL if there was one and the synthesised URL otherwise |
| `Completion.CompletedArchs` | src/scanner.py:206-245 | when the fetched architectures are among the template's, the completed platform holds exactly the template's architectures |
| `Completion.ReorderFilled` | src/scanner.py:247-253 | reordering a dictionary whose platforms hold the filled dictionaries gives the completed downloads |
| `Completion.FillPlatform` | src/scanner.py:207-217 | one platform block creates the platform if missing and fills its missing architectures, leaving the other platforms unchanged |
| `Completion.CompleteAndReorder` | src/scanner.py:206-253 | the three platform blocks followed by the reordering produce the completed downloads |
| `Completion.EnsureCompleteDownloads` | src/scanner.py:204-253 | `_ensure_complete_downloads` yields the fetched downloads completed from the mac, windows and linux URL templates |
| `Extraction.KeptUrlMatches` | src/scanner.py:125-132 | a kept URL is the non-empty fetched one, and a kept Windows URL contains `CursorSetup-x64-v.exe` or `CursorSetup-arm64-v.exe` with a dotted `v` |
| `Extraction.BucketKeysIn` | src/scanner.py:125-148 | a platform loop files URLs only under names of its table |
| `Extraction.BucketKeys` | src/scanner.py:135-141 | the keys are the names whose URL was kept, in table order |
| `Extraction.BucketLookup` | src/scanner.py:135-141 | under each name the loop holds the URL kept for its platform id |
| `Extraction.WinBucketByArch` | src/scanner.py:125-132 | the Windows dictionary holds, under x64 and arm64, the fetched URL when it carries a version, and nothing else |
| `Extraction.MacBucketByArch` | src/scanner.py:135-141 | the mac dictionary holds, under universal, x64 and arm64, the fetched URL, and nothing else |
| `Extraction.LinuxBucketByArch` | src/scanner.py:144-148 | the Linux dictionary holds, under x64 and arm64, the fetched URL, and nothing else |
| `Extraction.SearchShape` | src/scanner.py:164-165 | a captured version is three digit groups and a captured build id is 40 lower-case hex digits |
| `Extraction.WinPassLast` | src/scanner.py:162-171 | each Windows match overwrites: a Windows loop that never holds both values ends with the version and the build id of the last URL carrying each |
| `Extraction.WinLaterWins` | src/scanner.py:162-171 | a later Windows URL carrying both values replaces the version an earlier URL supplied |
| `Extraction.PassConcat` | src/scanner.py:170-171 | a loop over two runs of URLs continues into the second run only when the first did not already supply both values, so it stops at the first URL after which both are held |
| `Extraction.FirstBothWins` | src/scanner.py:170-171 | the Windows loop keeps the captures of the first URL carrying both values; a later URL carrying both does not replace them |
| `Extraction.LinuxPassKeeps` | src/scanner.py:179-182 | the Linux loop never replaces a version or build id the Windows loop found |
| `Extraction.PassSound` | src/scanner.py:161-184 | whatever a loop finds was there before or was read from one of its URLs |
| `Extraction.ExtractSound` | src/scanner.py:157-184 | a recovered version is dotted and comes from a Windows or Linux URL, and a recovered build id is 40 hex digits from one of them |
| `Extraction.PassKeepsFound` | src/scanner.py:161-184 | a loop never loses a version or build id once it holds one |
| `Extraction.PassFinds` | src/scanner.py:161-184 | a loop ends holding a version when one of its non-empty URLs carries one, and likewise for the build id |
| `Extraction.ExtractComplete` | src/scanner.py:157-184 | a version is recovered exactly when some Windows or Linux URL carries one, and a build id exactly when some fetched URL carries one |
| `Extraction.PassCompletes` | src/scanner.py:170-171 | once a URL yields both version and build id, the loop ends with both |
| `Extraction.WindowsPreferred` | src/scanner.py:173-174 | a Windows URL carrying both decides the result and the Linux URLs are not consulted |
| `Extraction.CollectUrls` | src/scanner.py:125-148 | each platform loop builds the dictionary of kept URLs in platform-id order |
| `Extraction.ExtractVersion` | src/scanner.py:157-184 | the two extraction loops with their breaks recover what the Windows-then-Linux specification recovers |
| `VersionSort.BeforeTransitive` | src/scanner.py:331 | the descending key order is transitive |
| `VersionSort.InsertMultiset` | src/scanner.py:331 | inserting adds exactly the inserted record |
| `VersionSort.InsertSorted` | src/scanner.py:331 | inserting into a descending list keeps it descending |
| `VersionSort.InsertWithKey` | src/scanner.py:331 | insertion keeps the relative order of records with equal keys |
| `VersionSort.SortDescSorted` | src/scanner.py:331 | the sorted list is in descending order of the version string |
| `VersionSort.SortDescPermutation` | src/scanner.py:331 | the sorted list holds exactly the records of the input |
| `VersionSort.SortDescStable` | src/scanner.py:331 | records with equal keys keep their original relative order |
| `VersionSort.SortDescOfSorted` | src/scanner.py:331 | sorting a list already in descending order changes nothing |
| `VersionSort.LexicographicNotNumeric` | src/scanner.py:331 | a "1.9.0" record is placed before a "1.10.0" record |
| `VersionSort.SortInPlace` | src/scanner.py:331 | the array ends up holding the stable descending sort of its old contents |
| `VersionSort.InsertInto` | src/scanner.py:331 | one step of the in-place sort inserts the next record into the sorted prefix and leaves the rest alone |
| `Scanner.AssembleLookup` | src/scanner.py:150-155 | the assembled downloads hold each non-empty platform dictionary under its platform |
| `Scanner.DottedVersionParses` | src/scanner.py:164-167 | a version recovered from a URL parses for `compare_versions` as three non-negative components |
| `Scanner.FetchSpecShape` | src/scanner.py:186-202 | there is no new record exactly when version or build id was not recovered; otherwise there is one, carrying the recovered version (dotted) and build id (40 hex digits), today's date and platforms mac, windows, linux |
| `Scanner.FetchSpecDownloads` | src/scanner.py:191-200 | in the new record each slot holds the fetched URL, or the URL built from version and build id where nothing was fetched |
| `Scanner.TemplateKeys` | src/scanner.py:211-241 | each URL template covers exactly the architecture names of its platform |
| `Scanner.BucketOfKeys` | src/scanner.py:125-148 | a fetched platform dictionary only uses architecture names of its platform |
| `Scanner.FetchSpecArchs` | src/scanner.py:199-200 | in the new record mac offers exactly universal, x64 and arm64, and windows and linux exactly x64 and arm64 |
| `Scanner.FreshMembers` | src/scanner.py:317-325 | a new record is merged exactly when no known record has its version |
| `Scanner.FreshEmpty` | src/scanner.py:317-325 | when every fetched version is known, nothing is merged |
| `Scanner.ProcessSorted` | src/scanner.py:331 | the merged list is in descending order |
| `Scanner.ProcessContents` | src/scanner.py:328-331 | the merged list is a permutation of the known records plus the merged new ones |
| `Scanner.ProcessCovers` | src/scanner.py:317-328 | every fetched version is in the merged list |
| `Scanner.ProcessIdempotent` | src/scanner.py:298-333 | merging the same fetch again changes nothing |
| `Scanner.NormaliseAllSorted` | src/utils.py:49-56 | normalising keeps the descending order |
| `Scanner.UpdatedShape` | src/scanner.py:104-109 | after an update the list is descending, holds every known record normalised, and grows by the merged records |
| `Scanner.UpdatedIdempotent` | src/scanner.py:93-115 | updating twice with the same fetch leaves the same list as updating once |
| `Scanner.CursorVersionScanner.constructor` | src/scanner.py:41-70 | the scanner starts from the loaded data, or from an empty list when loading failed |
| `Scanner.CursorVersionScanner.FetchAllPlatforms` | src/scanner.py:117-202 | the fetch returns the record its specification describes, or nothing |
| `Scanner.CursorVersionScanner.AssembleDownloads` | src/scanner.py:150-155 | non-empty platform dictionaries are filed in the order windows, mac, linux |
| `Scanner.IsKnown` | src/scanner.py:85-88 | the scan of the known records reports a match exactly when some known record has the version |
| `Scanner.CursorVersionScanner.CheckNewVersion` | src/scanner.py:72-91 | there is a new version exactly when a record was fetched and no known record has its version |
| `Scanner.CursorVersionScanner.ProcessVersions` | src/scanner.py:298-333 | nothing for an empty fetch, else the known records plus the unknown new ones, normalised and stably sorted by version string |
| `Scanner.CursorVersionScanner.UpdateVersions` | src/scanner.py:93-115 | with nothing fetched the state is unchanged and the result is false; otherwise the list is the normalised merge, the time is stamped, and the result and the saved data follow the write outcome |
| `Scanner.CursorVersionScanner.SaveData` | src/utils.py:42-63 | saving puts every record's downloads in canonical order in place, keeps the timestamp, and stores the data exactly when the write succeeds |
| `Formatter.TableLines` | src/formatter.py:102-104 | the table's lines are the rows in order, with no trailing newline |
| `Formatter.ArchLinksInOrder` | src/formatter.py:74-94 | when every architecture of a dictionary is labelled, its links follow the insertion order, one per architecture |
| `Formatter.ArchLinksOne` | src/formatter.py:74-94 | one entry gives its link when the platform labels its architecture, and nothing for any other key |
| `Formatter.ArchLinksConcat` | src/formatter.py:74-94 | the links of a dictionary are the links of its front followed by those of the rest, so unlabelled keys are skipped wherever they stand |
| `Formatter.ArchLinksEmpty` | src/formatter.py:74-94 | a platform has no links exactly when none of its architectures is labelled |
| `Formatter.ColumnPlaceholder` | src/formatter.py:97-99 | a column shows the placeholder exactly when it has no links |
| `Formatter.LinksShape` | src/formatter.py:78-94 | every link is non-empty and starts with '[' |
| `Formatter.CompletedColumns` | src/formatter.py:97-99 | a record with completed downloads shows at least one link in every platform column |
| `Formatter.PlatformLinksOfDistinct` | src/formatter.py:74-94 | a platform filed once contributes exactly the links of its dictionary |
| `Formatter.LineEndFind` | src/formatter.py:39-40 | a header or separator line read at a position ends one past the first line break after it, as `find('\n') + 1` computes |
| `Formatter.LineEndBreak` | src/formatter.py:39-40 | the line read is empty exactly when no line break follows, and otherwise is one whole line ending in its line break |
| `Formatter.SpliceShape` | src/formatter.py:43-44 | the new content keeps everything up to the end of the separator line and everything after the match, with the table between |
| `Formatter.FindCharConcat` | src/formatter.py:39 | the first line break of a string that has one is not moved by appending text |
| `Formatter.LineEndFront` | src/formatter.py:39-40 | a whole line standing at a position is exactly the line read there |
| `Formatter.SpliceAgain` | src/formatter.py:37-44 | splicing the same table over a spliced table changes nothing |
| `Formatter.SpliceIdempotent` | src/formatter.py:37-47 | with header and separator lines ending in line breaks, and the second match ending right after the spliced table (as it does for a non-empty table none of whose fields starts with '##'), updating the README twice with the same table gives the same content |
| `Formatter.ReadmeFormatter.constructor` | src/formatter.py:11-14 | the formatter holds the loaded versions, if any, and the README content |
| `Formatter.ReadmeFormatter.GenerateVersionTable` | src/formatter.py:60-104 | the nested loops produce the table of rows joined by line breaks |
| `Formatter.ReadmeFormatter.UpdateReadme` | src/formatter.py:16-58 | without version data or without a table match the README is unchanged and the result is false; otherwise the result is the write outcome and a successful write stores the splice |
| `Formatter.AppendLinks` | src/formatter.py:74-94 | each per-platform loop appends the labelled links of its dictionary in insertion order |

## Left out

- Network access (`_fetch_latest_download_url`, `async_make_request`, `make_request`): the endpoint's answers are the `FetchResults` input. This also leaves out the `-system` platform suffix and its URL rewrite, which no listed platform id uses.
- File I/O (`load_json_file`, `_load_versions_data`, `save_json_file`'s `json.dump`, the README read and write): data loaded at start-up is the constructor's input, and whether a write succeeded is the `writeOk` input.
  - A failed write leaves `saved` (the data last written) untouched. The model does not capture that `open(file_path, "w")` truncates the file before `json.dump` runs (src/utils.py:58-59), so a failure during the dump leaves a truncated file rather than the old data.
  - `ensure_dir_exists` is not modelled.
- The clock (`datetime.now`, `_get_current_date`, `get_current_timestamp`, `format_date`): dates and times are the `today` and `now` inputs.
- The `Last Updated` substitution in `update_readme` (a `re.sub` with a timestamp pattern): the README content after it is the `stamped` input of `Formatter.ReadmeFormatter.UpdateReadme`.
- The table-locating regular expression in `update_readme` (`[\s\S]*?` with a look-ahead): where its match starts and ends is the `tableMatch` input.
- Logging, `main.py` and the asyncio event loop: they have no effect on the data.
- Exceptions: the `except` branches are modelled only through their outcome. A data file that cannot be read or is not an object is `loaded == None`; a failed write is `writeOk == false`.
- Records with missing `downloads`: such a record is taken to have an empty downloads dictionary. A loaded JSON value that is not a dictionary of dictionaries is not modelled.
- Aliasing: Python mutates the fetched record in place, and it shares objects with `versions_data`. The model passes values and states the resulting list instead.
- Extraction.ArchKeys: the test `"x64" if "x64" in platform else "arm64"` is written as the table it yields for the two fixed platform ids, not as a substring search.
- Utils.ParseInt: `int()` also accepts surrounding whitespace, underscores between digits and non-ASCII digits. The model accepts only an optional sign and ASCII digits, so `compare_versions` on such strings takes the string fallback in the model.
- A JSON `null` version or date is treated as a missing key (`None` in the record's option). In Python, `x.get("version", "0.0.0")` returns `None` for a null version, so the sort's comparison raises (src/scanner.py:331), and the table shows "None" where the model shows "" (src/formatter.py:65-66).
- Formatter.SpliceIdempotent: covers only a second match that ends right after the spliced table, which is where the table pattern's look-ahead stops for a non-empty table none of whose fields starts with '##'; a field starting with '##' (after optional white space) lets the look-ahead stop inside the table, and that case is not covered. With no version records the table is "" (src/formatter.py:104). The look-ahead then already succeeds after the separator's closing `|`, before its line break, so each update adds one line break and updating twice is not idempotent.
- Patterns.Search: `\d` is restricted to ASCII digits, where Python's `re` also matches other Unicode decimal digits.
- The `ReadmeFormatter` data file is loaded with `load_json_file`. A file without a `versions` key makes `_generate_version_table` raise; that case is folded into `versionsData == None`.
