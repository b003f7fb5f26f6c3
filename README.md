# ai_project_translator, modelled in Dafny

`ai_project_translator` is a command-line tool. It turns a project directory into one Markdown text for an AI
assistant. The text holds:

- a drawing of the directory tree;
- one fenced block per source file, with a size ceiling on what is read;
- an optional question, cleaned up.

The tool exists twice: the packaged module `ai_project_translator/main.py` and an older top-level copy
`main.py`. The two share their algorithms but differ in configuration and in one output line.

This project models both copies over an in-memory directory tree and proves what they compute.

**Filesystem (`FileSystem`)**
- A `Node` is a `File` or a `Dir`.
- A `File` carries its size and how access to it goes. It can be read, `stat` can fail, or `open` can fail after the size check.
- A `Dir` carries its children (in `os.listdir` order) and a readable flag. A directory that cannot be listed has no children.
- `Reachable(n, via, e, excl)` says that entry `e` is found from `n` by going down through the directories named `via`, none of them excluded.

**Python built-ins (`PyText`, `Ordering`)**
- `str.strip`, `split`, `join`, `endswith` and `in` on strings, written as functions on `seq<char>`.
- `int()` and `str()` on integers.
- String order by code point.
- The stable `sorted(..., key=...)`.
- List comprehensions with a condition.

**Tree drawing (`TreeRender`, `TreeFacts`)**
- The specification `TreeRows` gives one `Row` per listed entry.
- Each row carries the trail of its ancestor directories, with whether each was the last entry of its listing.
- `Render` prints a row with the connector and the carried prefix.
- The imperative `BuildTree` appends to `structure` as the closure does. It is proved to append exactly the rendered rows.
- Soundness: every line is a reachable entry that is not excluded and lies within the depth limit.
- Completeness: every such entry has a line.
- Level shape: one listing is its directories, then its files, each group sorted, with `└── ` only on its final entry.
- Prefix columns: one column per ancestor, `    ` below a last entry and `│   ` otherwise.

**Collector (`Collector`, `CollectorFacts`)**
- The specification `Collected` lists records in `os.walk` order: the matching files of a directory, then its subtrees that are not pruned.
- The imperative `Walk` is proved to produce it.
- `GetCodeFilesWithContent` sorts it by path.
- Soundness and completeness are stated against `Reachable`.
- In a real tree (names free of `/` and distinct within a directory), paths are distinct, so the output is strictly increasing.

**The rest**
- `Content` covers `read_file_content`.
- `Language` covers `get_file_extension_language`.
- `Formatting` covers `format_question_for_output`, `format_file_for_ai` and the command's `--include-large` filter.
- `Settings` covers the packaged defaults and the configuration validators.
- `Legacy` covers the top-level copy with its own defaults.

Where the module's argument is `None`, the configuration value is passed explicitly instead. `Settings.ScanArguments` fills in the collector's arguments that way.

## Model

| member | source | states |
|---|---|---|
| Content.ReadFileContent | ai_project_translator/main.py:183-201 | exactly one of content and error is set; content is present iff the file is readable and its size is at most the ceiling, and then it is the file's text; the size is checked before the open, so a file whose `stat` works and whose size is above the ceiling always gets the too-large message with its real size, even when `open` would fail; a failing `stat`, or a failing `open` within the ceiling, gives "Error reading file: " plus the exception message |
| Content.LimitBoundary | ai_project_translator/main.py:194-195 | a readable file of exactly the ceiling is read; one byte more gives the too-large message |
| Content.TooLargeMessageReportsSize | ai_project_translator/main.py:195 | the digits inside the too-large message read back as the file's size, and the message contains "too large" |
| Language.Suffix | ai_project_translator/main.py:178 | `Path.suffix`: empty, or a proper suffix of the name that starts with its only dot, at least two characters long |
| Language.SuffixOfStemAndExtension | ai_project_translator/main.py:178 | a non-empty stem followed by a one-dot extension has exactly that extension as suffix |
| Language.NoSuffix | ai_project_translator/main.py:178 | dot-files, names ending in a dot and names without a dot have no suffix |
| Language.LanguageOf | ai_project_translator/main.py:174-180 | the tag is "text" or one of the map's languages |
| Language.LanguageOfKnownExtension | ai_project_translator/main.py:174-180 | a name ending in a lower-case key of the map gets that key's language |
| Language.LanguageOfUnknownExtension | ai_project_translator/main.py:174-180 | a name whose lower-cased extension is not a key gets "text" |
| Language.LanguageIgnoresCase | ai_project_translator/main.py:178-180 | lower-casing the name does not change its tag |
| TreeRender.SplitListing | ai_project_translator/main.py:142-151 | the loop over the sorted listing drops excluded names and yields exactly the sorted listed directories and files |
| TreeRender.AppendFiles | ai_project_translator/main.py:163-167 | appends exactly the rendered file rows of the listing, `└── ` on the last |
| TreeRender.AppendDirs | ai_project_translator/main.py:153-161 | appends, per directory, its rendered row followed by its subtree with the extended prefix |
| TreeRender.BuildTree | ai_project_translator/main.py:133-167 | appends exactly the rendered rows of `TreeRows` for the directory at this depth and prefix; nothing when the depth exceeds the limit or the directory cannot be listed |
| TreeRender.GetDirectoryStructure | ai_project_translator/main.py:118-171 | the first line is the start directory's name with `/`; the rest are the rendered rows of the whole tree |
| TreeRender.ListedMembers | ai_project_translator/main.py:145-151 | an entry is a listed directory (file) iff it is a child directory (non-directory) whose name is not excluded |
| TreeFacts.RowsSound | ai_project_translator/main.py:133-167 | every row names an entry that is not excluded, reached through directories that are not excluded, of the right kind, with at most max_depth ancestors below the start |
| TreeFacts.RowsComplete | ai_project_translator/main.py:133-167 | every entry that is not excluded and is reachable through at most max_depth directories that are not excluded has a row |
| TreeFacts.LevelShape | ai_project_translator/main.py:153-167 | the rows of one listing are its directories then its files, in listing order, and only the final entry is marked last |
| TreeFacts.LevelSplit | ai_project_translator/main.py:155-166 | a directory is last only when it is the last directory and there are no files; a file is last when it is the last file |
| TreeFacts.ListingSorted | ai_project_translator/main.py:138 | each group is in ascending name order, strictly so when names in a directory are distinct |
| TreeFacts.PrefixColumns | ai_project_translator/main.py:160 | the carried prefix has four characters per ancestor, `    ` below a last entry and `│   ` otherwise |
| TreeFacts.FileRowsExplicit | ai_project_translator/main.py:163-167 | the file rows of a listing, by index, with last set on the final file only |
| TreeFacts.RowsDeeper | ai_project_translator/main.py:160-161 | rows drawn below a directory are nested deeper than it |
| Collector.Walk | ai_project_translator/main.py:221-239 | appends exactly `Collected`: a directory's matching files, then each subtree that is not pruned |
| Collector.AppendFiles | ai_project_translator/main.py:224-239 | appends exactly `FileRecords`: one `MakeRecord` per file whose name ends with a wanted extension, in listing order |
| Collector.WalkSubdirs | ai_project_translator/main.py:221-223 | descends into the pruned subdirectories in order, appending their records |
| Collector.GetCodeFilesWithContent | ai_project_translator/main.py:204-241 | the result is the walk's records sorted by path: same multiset, non-decreasing by path |
| Collector.MatchesStemAndExtension | ai_project_translator/main.py:226 | `MatchesExtension`, the `any(file.endswith(ext) ...)` test: a name matches iff it is some stem, possibly empty, followed by one of the extensions |
| Collector.MakeRecord | ai_project_translator/main.py:227-239 | the record's path is the relative directory plus the file name, its tag is the name's language, exactly one of content and error is set, content is present iff the file is readable within the ceiling and is then its text, and the size is the `stat` size or 0 |
| Collector.GetSingleFileInfo | ai_project_translator/main.py:244-267 | a record exists iff the whole path string ends with an extension; it is then the file's `MakeRecord` in the start directory, so its path is the bare file name and its tag, content or error, and size are as the walk builds them |
| CollectorFacts.FileRecordsMembers | ai_project_translator/main.py:224-239 | a record of a directory's files exists exactly for each file whose name ends with an extension |
| CollectorFacts.CollectedSound | ai_project_translator/main.py:221-239 | every record is that of a matching file, reached only through directories that are not excluded, at its relative path |
| CollectorFacts.CollectedComplete | ai_project_translator/main.py:221-239 | every matching file reachable without entering an excluded directory has its record, whatever its own name |
| CollectorFacts.CollectedUnder | ai_project_translator/main.py:229 | every record's path starts with the relative directory it was collected from |
| CollectorFacts.CollectedDistinct | ai_project_translator/main.py:229 | in a real tree no two records share a path |
| CollectorFacts.OutputStrictlySorted | ai_project_translator/main.py:241 | in a real tree the output is strictly increasing by path |
| CollectorFacts.MatchesByName | ai_project_translator/main.py:253 | for extensions without `/`, matching the full path (as the single-file path does) and matching the file name (as the walk does) agree |
| CollectorFacts.SingleFileAgreesWithWalk | ai_project_translator/main.py:244-267 | a file in the start directory gets a single-file record iff the walk collects it, and then the same record |
| Ordering.SortBy | ai_project_translator/main.py:241 | `sorted` returns a permutation of its input |
| Ordering.SortBySorted | ai_project_translator/main.py:241 | `sorted` returns a sequence non-decreasing by key |
| Ordering.SortByStrict | ai_project_translator/main.py:241 | with distinct keys, `sorted` returns a strictly increasing sequence |
| Ordering.Filter | ai_project_translator/main.py:223 | a comprehension keeps exactly the elements satisfying its condition |
| Ordering.FilterSorted | ai_project_translator/main.py:460-466 | filtering keeps a sorted sequence sorted |
| Formatting.FormatQuestion | ai_project_translator/main.py:103-115 | empty iff no question or only whitespace; otherwise stripped and ending in `.`, `!`, `?` or `:`; the stripped text unchanged when it already ends so, else with one `.` appended |
| Formatting.FormatQuestionIdempotent | ai_project_translator/main.py:103-115 | formatting twice equals formatting once |
| Formatting.FormatFileForAi | ai_project_translator/main.py:270-293 | the text is the block's lines joined with newlines |
| Formatting.BlockHeader | ai_project_translator/main.py:276-280 | the framework line comes first exactly when a framework is given, then the path line and a blank line |
| Formatting.ErrorWins | ai_project_translator/main.py:282-284 | with a non-empty error the block shows the note, is the same whatever the content, and no line of it is or starts with a fence |
| Formatting.ContentFenced | ai_project_translator/main.py:285-289 | a language-tagged fence, the content and a closing fence appear iff there is no error and the content is present |
| Formatting.PurposeOnlyWithContent | main.py:189-194 | the block ends with the purpose line exactly in the top-level copy's content branch |
| Formatting.AppendFileSections | ai_project_translator/main.py:460-471 | appends, for each shown file in order, its formatted block, a rule of 80 dashes and a blank line |
| Formatting.SectionsConcat | ai_project_translator/main.py:460-471 | the output for a concatenation of file lists is the output for the first list followed by the output for the second |
| Formatting.SectionsLength | ai_project_translator/main.py:460-471 | each shown file contributes exactly three lines |
| Formatting.Shown | ai_project_translator/main.py:461-466 | with `--include-large`, or with no error or an empty one, the file is shown; otherwise it is skipped iff its error contains "too large" |
| Formatting.IncludeLargeKeepsAll | ai_project_translator/main.py:460-466 | with `--include-large` nothing is skipped |
| Formatting.TooLargeDropped | ai_project_translator/main.py:460-466 | without it, a file over the ceiling is skipped and a file read in full is kept |
| Formatting.FilterKeepsOrder | ai_project_translator/main.py:460-466 | the shown files keep the collector's order by path |
| Settings.Pieces | ai_project_translator/main.py:81 | the decoded set is never empty, and its names are stripped and hold no comma |
| Settings.DecodeJoined | ai_project_translator/main.py:78-88 | a non-blank comma-joined list decodes to the set of its stripped pieces |
| Settings.DecodeNames | ai_project_translator/main.py:78-88 | clean names, joined with commas, decode back to exactly those names |
| Settings.DecodeList | ai_project_translator/main.py:78-88 | the decoded set is never empty and holds stripped, comma-free names; a blank value decodes as the fallback text; any other value gives the stripped pieces of its own comma split |
| Settings.DecodeExcludeDirs | ai_project_translator/main.py:78-82 | a blank value decodes to the eleven names of `EXCLUDE_DIRS`; any other value to its own stripped pieces |
| Settings.DecodeExtensions | ai_project_translator/main.py:84-88 | a blank value decodes to the fourteen extensions of `EXTENSIONS`; any other value to its own stripped pieces |
| Settings.DecodeMaxSize | ai_project_translator/main.py:90-97 | an integer passes through; blank text gives 600000; other text gives what `int()` gives, `None` for its `ValueError` |
| Settings.DecodeMaxSizeRoundTrip | ai_project_translator/main.py:90-97 | an integer written in decimal decodes back to itself |
| Settings.DefaultConfig | ai_project_translator/main.py:20-74 | the default configuration: 600000 bytes, depth 3, the default names and extensions |
| Settings.ScanArguments | ai_project_translator/main.py:204-218 | each collector argument left as `None` takes the configuration's value, and one that is passed is used as is; the extension map is the configuration's |
| Settings.DefaultScan | ai_project_translator/main.py:204-218 | with nothing passed and no environment variable, the collector scans with the fourteen extensions, 600000 bytes, the eleven excluded names and the default map |
| PyText.Strip | ai_project_translator/main.py:109 | the result is a slice `s[i..j]` of the input with only whitespace before `i` and after `j`, and has no whitespace at either end, so it is the input minus its leading and trailing whitespace; it is empty iff the input is all whitespace |
| PyText.ParseInt | ai_project_translator/main.py:97 | `int()` accepts the text iff, once stripped, it is ASCII digits, optionally after one `+` or `-` sign; only a leading `-` gives a negative value |
| PyText.SplitJoin | ai_project_translator/main.py:81 | splitting a comma-join of comma-free pieces gives back the pieces |
| PyText.JoinSplit | ai_project_translator/main.py:81 | joining the pieces of a split gives back the string |
| PyText.ParseIntRoundTrip | ai_project_translator/main.py:97 | `int(str(n)) == n` |
| PyText.NegativeRoundTrip | ai_project_translator/main.py:97 | `int(str(-m)) == -m` for a positive `m` |
| PyText.NaturalRoundTrip | ai_project_translator/main.py:97 | `int(str(n)) == n` for a non-negative `n` |
| Legacy.LegacyScan | main.py:140-151 | the top-level collector always prunes the nine fixed directory names and uses the fixed extension map |
| Legacy.LegacyDirectoryStructure | main.py:66-112 | the same drawing as the packaged copy, excluding the fixed names by default and with depth 3 when none is passed |
| Legacy.LegacyCodeFiles | main.py:140-171 | the walk's records under the fixed exclusion set, sorted by path; without a ceiling argument the ceiling is 600000 bytes |
| Legacy.LegacyFormatFileForAi | main.py:174-198 | the block with the purpose line after the fenced content |
| Legacy.TomlMissing | main.py:19-60 | `.toml` is neither one of the thirteen extensions nor a key of the extension map in the top-level copy |
| Legacy.TomlPresent | ai_project_translator/main.py:10 | `.toml` is one of the packaged copy's default extensions and maps to "toml" |
| Legacy.LegacyExtensionsNotTomlSuffix | main.py:19-33 | no top-level extension is longer than `.toml` or a suffix of it |
| Legacy.TomlNotCollectedByLegacy | main.py:153-156 | whatever its stem, a `.toml` file matches none of the top-level extensions, so the top-level walk skips it |
| Legacy.TomlUntaggedByLegacy | main.py:115-121 | the top-level copy tags `stem.toml` (stem without a dot) as "text" |
| Legacy.TomlCollectedByPackaged | ai_project_translator/main.py:10 | under the packaged defaults a `.toml` file matches an extension and is tagged "toml" |

## Findings

| source | as written | input that shows it | evidently intended | confidence | as-written member | corrected member |
|---|---|---|---|---|---|---|
| main.py:19-33 | the top-level copy's extension set has no `.toml`, so its collector skips `pyproject.toml`, although its own tests (tests/test_file_handeling.py:69) expect that file to be collected | a start directory holding `pyproject.toml` | `.toml` among the extensions, as in the packaged copy's `EXTENSIONS` | high (not executed) | Legacy.TomlNotCollectedByLegacy | Legacy.TomlCollectedByPackaged |

## Left out

- The command-line entry points (`cli`, `analyze_project`), their echo output and the clipboard are not modelled. Only the `--include-large` filter of the file loop is modelled, together with the lines it appends.
- Loading settings from the environment (prefix, case-insensitivity, the global `config` object) is library behaviour and is not modelled. The validator bodies are modelled as functions, and configuration is passed explicitly.
- Real I/O is replaced by the `Node` tree: `os.listdir`, `os.path.isdir`, `os.walk`, `stat` and `open`.
  - The order of `os.listdir` is the children's order.
  - `os.walk`'s listing is one directory read.
  - File content is an opaque string; the lossy UTF-8 decoding is not modelled.
- Symlinks, races between `stat` and `open`, and a start path that does not exist are not modelled.
- `GetDirectoryStructure` requires a directory. The source raises an uncaught `NotADirectoryError` for a file.
- `FileRecord` has no `full_path` field, since nothing in the core reads it.
- A record's size is the `stat` size, or 0 when `stat` fails. `exists()` failing on its own is not modelled.
- PyText.Lower: lower-cases ASCII letters only, while Python's `str.lower` is full Unicode.
- Collector.MatchesExtension: its stem-and-extension reading is stated by the lemma `MatchesStemAndExtension`, not on the predicate itself, so that the collector's proofs do not carry that quantifier.
- PyText.ParseInt: accepts an optional sign and ASCII digits inside whitespace, while Python's `int()` also takes underscores and non-ASCII digits.
- Formatting.FormatFileForAi: states the joined lines. That the joined text can be split back into blocks is not stated, because content may itself contain newlines.
- The single-file branch of the command applies the same too-large test before printing. Only the test (`Formatting.Shown`) is modelled, not the branch's headings.
