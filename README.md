# code-assembler-pro core, modelled in Dafny

This project models the core of code-assembler-pro. The tool flattens a code
base into one Markdown snapshot. It hides a JSON metadata block
(`<!-- CODE_ASSEMBLER_METADATA ... -->`) in that snapshot, which maps each
file's relative path to the minute it was last modified. Later it:

- computes the delta between that snapshot and the files now on disk
  (modified, added, deleted), and reports it in one paragraph;
- rebuilds the project tree from the snapshot, one fenced block per file.

Around this core sit the helpers modelled here:

- path normalisation, exclusion and anchor slugs;
- the configuration checks, and the extension / exact-filename split;
- the statistics accumulator;
- the architecture analyser: depth distribution, components, detected
  patterns, and the extension distribution.

Modules, one file each:

- `Strings` (`strings.dfy`): the Python string and sequence built-ins the
  core relies on. These are `startswith`/`endswith`/`in`, `str.find`,
  `lower`, `replace`, `rstrip`, `split`/`join`, `Path(p).name`, `sorted`
  over strings, `set()` de-duplication, and `str(int)`.
- `Metadata` (`metadata.dfy`):
  - the metadata block finder;
  - minute stamps and their `strptime` parsing;
  - Python dict semantics over JSON members;
  - `extract_metadata`.
- `Delta` (`delta.py` → `delta.dfy`):
  - `normalize_key`;
  - the common root and relative key of a current path;
  - exact-then-suffix matching;
  - `_has_changed`, `get_delta` and `filter_changed_files`;
  - `format_delta_summary`.
- `Blocks` (`blocks.dfy`):
  - the block finder of `_extract_file_content`;
  - the snapshot document shape written by the assembler.
- `Rebuild` (`rebuild.dfy`): the class `CodebaseRebuilder`, with
  `_extract_metadata` and `rebuild`. The output directory is a
  `map<string, string>` from relative path to text. A file is keyed by the
  name `output_dir / rel_path` gives it (`DiskPath`): the key's parts with
  empty parts and `.` dropped, joined by `/`. So `a`, `./a` and `a/` are one
  file, and the last key written to it wins.
- `Utils` (`utils.dfy`): `normalize_path`, `slugify_path`, `should_exclude`,
  `estimate_tokens`, `format_number`.
- `Config` (`config.dfy`):
  - the class `AssemblerConfig` with `__post_init__`;
  - the datatype `FileEntry`;
  - the class `CodebaseStats`.
- `Analyzers` (`analyzers.dfy`): the class `ArchitectureAnalyzer`.

The world outside the program is passed in as values:

- **The JSON decoder.** `decode: string -> Option<Json>` is None where
  `json.loads` raises. Objects keep their members as the raw list of pairs.
- **The block finder.** It is a parameter of the rebuilder (`find`). The
  project specifies one (`Blocks.FindBlock`). It proves that the finder gives
  back the content of a block of a written snapshot when two conditions hold:
  - the content holds no `` \n``` ``;
  - the block's header is the first place its `` # `path` `` occurs in the
    document.
  Rebuilding a whole snapshot (`Rebuild.RebuildsSnapshot`) needs more:
  - the preamble and the blocks hold no metadata marker;
  - the JSON is embeddable: non-empty, with no white space at either end
    and no `-->` in it;
  - every path is safe, not among the failing writes, and names a file
    other than the output directory and other than every other path's.
  A snapshotted file that itself holds a fenced code block is cut at its
  first inner fence by the lazy capture (rebuilder.py:53;
  `Blocks.CaptureIsPiece`).
- **The host.**
  - Each path's `getmtime` as a local time; a missing path is an `OSError`.
    `datetime.fromtimestamp` is the host's local time.
  - The set of regular files.
  - The working directory.
  - The Markdown file. For `extract_metadata` it is its text, or None when
    it cannot be read: the `except Exception` of delta.py:50-51 turns an
    unreadable file into the empty snapshot. For the rebuilder it is
    missing, unreadable or its text (`MdFile`): an existing file that
    `read_text` cannot read makes `rebuild` raise (rebuilder.py:29).
  - The writes that raise.
  - `str(p)` for `normalize_path`, where `p` is `Path(path)`, resolved first
    when it is relative.
  - `str(output_dir)` (`outDir`), which names the output directory in the
    `IsADirectoryError` message.

In the delta engine and the analyser, a path is a list of parts: split on
`/`, with empty parts and `.` dropped. The rebuilder keeps the snapshot's
keys as they are, and names the file each one writes by `DiskPath`.

## Model

| member | source | states |
|---|---|---|
| Strings.Find | src/code_assembler/delta.py:42 | `re.search` for a literal: the first occurrence at or after a point, none before it; None when there is none at all |
| Strings.Lower | src/code_assembler/utils.py:27 | `str.lower` on ASCII: same length, each letter lowered, nothing else changed, no upper-case letter left |
| Strings.RStrip | src/code_assembler/utils.py:27 | `rstrip(c)`: a prefix of the input, not ending in `c`, and everything cut off is `c` |
| Strings.Split | src/code_assembler/utils.py:45 | `str.split(sep)`: never empty, and no piece holds the separator |
| Strings.JoinSplit | src/code_assembler/utils.py:45 | joining the pieces of a split with the separator gives the text back |
| Strings.Name | src/code_assembler/config.py:111-113 | `Path(p).name`: the last part of the path; holds no `/`, and is empty exactly when the path has no parts |
| Strings.NameOfChild | src/code_assembler/config.py:111-113 | the name of `dir/n` is `n`, and its parts are those of `dir` followed by `n` |
| Strings.SortStrings | src/code_assembler/analyzers.py:66 | `sorted` over strings: a permutation of its input |
| Strings.SortStringsSorted | src/code_assembler/analyzers.py:66 | the result of `sorted` is in code-point order |
| Strings.SortedUnique | src/code_assembler/delta.py:141 | two sorted permutations of the same list are equal, so `sorted` does not depend on the input order |
| Strings.Dedup | src/code_assembler/config.py:75-77 | `list(set(...))`: no duplicates, the same members, and no longer than the input |
| Strings.DecimalString | src/code_assembler/utils.py:96 | `str(n)` for `n >= 0`: only digits, at least one, no leading zero |
| Strings.ParseDecimalString | src/code_assembler/utils.py:96 | reading back the decimal text of `n` gives `n` |
| Metadata.Lookup | src/code_assembler/delta.py:45 | `d.get(k)` on the pairs of a JSON object: None exactly when no pair has key `k`; otherwise the value of the last pair with key `k`, as a later duplicate key overwrites an earlier one |
| Metadata.DictKeys | src/code_assembler/delta.py:45 | the keys of the dict built from the pairs: distinct, exactly the keys that occur, in the order of their first occurrence |
| Metadata.Items | src/code_assembler/delta.py:45 | `d.items()`: one item per key in key order, each holding the value `d[k]` gives |
| Metadata.ParseStamp | src/code_assembler/delta.py:47 | `strptime(s, "%Y-%m-%d %H:%M")`: whatever it accepts is a real calendar minute |
| Metadata.ParseFormatStamp | src/code_assembler/delta.py:47 | formatting a valid stamp and parsing it back gives the stamp |
| Metadata.FormatParseStamp | src/code_assembler/delta.py:47 | a text the parser accepts is exactly the formatting of what it parsed (one text per stamp) |
| Metadata.SpaceRunEnd | src/code_assembler/delta.py:32 | the greedy `\s+`: every character it passes is white space, and it stops at the first that is not |
| Metadata.FindClose | src/code_assembler/delta.py:32 | the lazy group of the metadata pattern ends at the first place `\s+-->` matches, and nowhere earlier |
| Metadata.FindPayloadFrom | src/code_assembler/delta.py:32 | the search from a point: the capture at the leftmost marker after it from which the rest of the pattern matches (earlier markers fail), Some whenever some marker matches, and None without a marker |
| Metadata.FindPayload | src/code_assembler/delta.py:32-42 | `_METADATA_RE.search(...).group(1)`: the capture at the leftmost marker from which the whole pattern matches; None exactly when it matches from no marker |
| Metadata.FindPayloadOfBlock | src/code_assembler/delta.py:32-42 | appending the block the writer emits to a marker-free document, the finder returns exactly the embedded JSON text |
| Metadata.Snapshot.Put | src/code_assembler/delta.py:47 | `result[path] = stamp`: sets that key and keeps the listing order valid (a new key goes to the end) |
| Metadata.Collect | src/code_assembler/delta.py:45-49 | the per-entry loop leaves a valid snapshot |
| Metadata.CollectCons | src/code_assembler/delta.py:45-49 | one step of the loop: a parsable date is stored, an unparsable one is skipped |
| Metadata.CollectKeys | src/code_assembler/delta.py:45-49 | a path ends up in the result exactly when it was there before or some entry names it with a parsable date |
| Metadata.CollectValues | src/code_assembler/delta.py:45-49 | each kept entry holds its own parsed date, and earlier keys keep theirs |
| Metadata.SnapshotOfData | src/code_assembler/delta.py:44-49 | the snapshot built from a decoded JSON value is valid |
| Metadata.MetadataOf | src/code_assembler/delta.py:35-52 | `extract_metadata` as a function: always a valid snapshot |
| Metadata.ExtractMetadata | src/code_assembler/delta.py:35-52 | the loop computes `MetadataOf` |
| Metadata.MetadataAbsent | src/code_assembler/delta.py:42-51 | an unreadable file, a missing marker and JSON that does not decode all give the empty snapshot |
| Delta.CommonPrefix2 | src/code_assembler/delta.py:76 | the longest common prefix of two part lists: a prefix of both that one of them ends at or where they differ |
| Delta.CommonPrefix | src/code_assembler/delta.py:76 | `os.path.commonpath`: a prefix of every path, and no longer one exists (some path diverges right after it) |
| Delta.CommonRootPrefix | src/code_assembler/delta.py:73-81 | when the current paths are all absolute or all relative, the root (`commonpath`, or its directory when that is a file) is a prefix of every current path |
| Delta.RelKeyBelowRoot | src/code_assembler/delta.py:84-90 | a path strictly below the root gets as key its parts below the root joined with `/`: `relpath` climbs no `..` and no `./` is left |
| Delta.HasChangedMinuteOnly | src/code_assembler/delta.py:121-127 | `_has_changed` compares minutes only: a time in the same minute gives the same answer, and the file has changed exactly when that minute differs from the snapshot's |
| Delta.NormalizeKey | src/code_assembler/delta.py:55-57 | `normalize_key`: no backslash, no upper-case letter, no `/` at either end |
| Delta.FirstSuffixMatch | src/code_assembler/delta.py:100-104 | the first key in snapshot order that the suffix rule accepts (one path ends with the other, same basename); None when no key does |
| Delta.MatchKey | src/code_assembler/delta.py:93-104 | an exact key always wins; otherwise the first suffix match in snapshot order; the result is always a snapshot key |
| Delta.FindMatchKey | src/code_assembler/delta.py:93-104 | the search loop with its early `break` computes `MatchKey` |
| Delta.MatchOf | src/code_assembler/delta.py:106 | an accepted match is a non-empty snapshot key; a non-empty exact key is always accepted |
| Delta.ReconcileSets | src/code_assembler/delta.py:84-111 | after the loop a path is added exactly when it has no match, and modified exactly when its match's minute differs or its mtime raises; a key is matched exactly when some path chose it |
| Delta.ReconcileStep | src/code_assembler/delta.py:84-111 | one more current file is absorbed after the ones before it |
| Delta.NoKeyLeft | src/code_assembler/delta.py:114-116 | when every snapshot key is some current file's key, nothing is deleted |
| Delta.ReconcileFiles | src/code_assembler/delta.py:84-112 | the loop over the current files computes `Reconcile` |
| Delta.DeltaOf | src/code_assembler/delta.py:60-118 | no snapshot: every current file is both modified and added, nothing deleted. Otherwise modified and added are disjoint and within the current files, and a key is deleted exactly when no current file was paired with it |
| Delta.GetDelta | src/code_assembler/delta.py:60-118 | `get_delta` computes `DeltaOf` of the extracted snapshot |
| Delta.FilterChanged | src/code_assembler/delta.py:130-132 | `filter_changed_files`: with no snapshot every current file is read and nothing deleted. Otherwise a current file is read exactly when it has no matching key or has changed against its key's minute; a key is deleted exactly when no current file matched it |
| Delta.KnownKeysPaired | src/code_assembler/delta.py:84-111 | when every path's own key is a snapshot key: nothing is added, a path is modified exactly when its minute moved, and the matched keys are exactly those keys |
| Delta.KnownPathsPairedExactly | src/code_assembler/delta.py:60-118 | the same for `get_delta`: the deleted keys are exactly those no current file names |
| Delta.UnchangedFilesNoDelta | src/code_assembler/delta.py:60-127 | a snapshot of the same files, none touched since (same minute), gives an empty delta |
| Delta.Names | src/code_assembler/delta.py:141 | the basenames, one per path, in order |
| Delta.FormatGroup | src/code_assembler/delta.py:138-143 | `_fmt`: no line for an empty set, else exactly one line, opening with its icon |
| Delta.LinesInOrder | src/code_assembler/delta.py:138-149 | one line per non-empty set, in the order Modified, Added, Deleted, each `> icon title (n): names`, with `n` the set's size in decimal |
| Delta.Summary | src/code_assembler/delta.py:135-150 | for three sets (duplicate-free lists, so each count is `len` of its set): the all-clear line appears exactly when all three sets are empty; otherwise the report is the group lines joined by newlines, opening with the first non-empty group in the order Modified, Added, Deleted |
| Delta.FormatDeltaSummary | src/code_assembler/delta.py:135-150 | appending the group lines, then the all-clear line when there are none, and joining gives `Summary` |
| Delta.JoinedReport | src/code_assembler/delta.py:145-150 | the joined group lines are not the all-clear line and open with the first non-empty group's icon |
| Delta.LinesHead | src/code_assembler/delta.py:145-149 | no lines exactly when nothing changed; the first line belongs to the first non-empty group |
| Delta.SameSetSameMultiset | src/code_assembler/delta.py:135-150 | two duplicate-free lists of the same members are permutations of each other |
| Delta.SummaryOrderFree | src/code_assembler/delta.py:135-150 | the report depends only on the three sets (duplicate-free lists with the same members), not on the order they are iterated in |
| Delta.DisplayedNamesAreLeast | src/code_assembler/delta.py:141-142 | five files or fewer: all their names, sorted, comma-separated, with no suffix. Over five: the five smallest names, then `, ... (+n-5)` |
| Blocks.LangEnd | src/code_assembler/rebuilder.py:53 | the greedy `[a-z0-9]*` after a fence: every character it passes is a language character, and it stops at the first that is not |
| Blocks.FindFence | src/code_assembler/rebuilder.py:53 | the first `\n```[a-z0-9]*\n` fence line at or after a point, and none before it |
| Blocks.CaptureIsPiece | src/code_assembler/rebuilder.py:53-58 | the lazy capture is a piece of the document and holds no `\n```` |
| Blocks.FindBlock | src/code_assembler/rebuilder.py:52-58 | the corrected finder: a block is found only when the document holds the header naming exactly the path, and it is a piece of the document without a closing fence in it |
| Blocks.FindBlockAsWritten | src/code_assembler/rebuilder.py:52-58 | the pattern as written: a block is found only after some `# \`` and some `path\``, and it is a piece of the document without a closing fence in it |
| Blocks.FindBlockOfBlock | src/code_assembler/rebuilder.py:52-58 | a block whose header is the first occurrence of `` # `path` `` and whose content holds no `` \n``` `` gives back exactly its content |
| Blocks.DocumentBlockFound | tests/test_rebuild.py:35-58 | in a whole snapshot document, a file's own block is found with its content, when its header is the first occurrence of `` # `path` `` and its content holds no `` \n``` `` |
| Blocks.AsWrittenTakesEarlierSuffix | src/code_assembler/rebuilder.py:52-58 | the pattern as written returns the block of `s/m` when asked for `m`; the corrected finder returns `m`'s own |
| Blocks.AsWrittenOpening | src/code_assembler/rebuilder.py:52-58 | a document opening with the block of `s/m` always gives that block for `m` under the pattern as written |
| Rebuild.StringItems | src/code_assembler/rebuilder.py:77-78 | iterating a JSON list: its leading run of strings, raising exactly at the first item that is not a string |
| Rebuild.KeysOfObject | src/code_assembler/rebuilder.py:70-77 | the keys of a `files` object are visited in insertion order without raising |
| Rebuild.MetadataReadOf | src/code_assembler/rebuilder.py:24-40 | `_extract_metadata` of a readable file is the decoded payload, and None without one |
| Rebuild.Step | src/code_assembler/rebuilder.py:78-106 | one key adds one to the count or one message, plus a warning when written content is truncated; the tree changes only by writing that key's content to the file the key names (`DiskPath`); a key naming the output directory itself fails with `IsADirectoryError` |
| Rebuild.Run | src/code_assembler/rebuilder.py:77-106 | after the loop a file is on disk exactly when it was there or one of the keys wrote it; a written file holds the block of the LAST key that wrote it, and any other file is unchanged; the count never exceeds the number of keys |
| Rebuild.WrittenMeaning | src/code_assembler/rebuilder.py:89-98 | the content a run leaves in a file is that of a key writing it with no later key writing it; none exactly when no key writes it |
| Rebuild.LaterAliasWins | src/code_assembler/rebuilder.py:89-98 | two keys naming the same file (such as `a` and `./a`) leave one file, holding the later key's block |
| Rebuild.RunStep | src/code_assembler/rebuilder.py:77-106 | the loop over keys plus one more key is one more step |
| Rebuild.Accepted | src/code_assembler/rebuilder.py:77-104 | the counted keys are exactly those with content, a safe path and (unless dry run) a write that succeeds |
| Rebuild.Warned | src/code_assembler/rebuilder.py:100-102 | the warned keys are exactly the written ones whose content holds `[TRUNCATED]` |
| Rebuild.DryRunKeepsTree | src/code_assembler/rebuilder.py:91-94 | a dry run writes nothing |
| Rebuild.RunCounts | src/code_assembler/rebuilder.py:77-106 | the count is the number of accepted keys; the messages are one per rejected key plus one per warning; the count never exceeds the number of keys |
| Rebuild.AllAccepted | src/code_assembler/rebuilder.py:77-104 | when every key can be created, all are counted, in order |
| Rebuild.NoneWarned | src/code_assembler/rebuilder.py:100-102 | with no truncated content, no warning |
| Rebuild.RebuildOfRead | src/code_assembler/rebuilder.py:67-70 | with metadata read, `rebuild` goes on with it |
| Rebuild.RebuildOf | src/code_assembler/rebuilder.py:60-70 | an unreadable file raises with nothing made; a missing file or no metadata gives `(0, [message])` with nothing made; the directory is made only outside a dry run with metadata read |
| Rebuild.RebuildWith | src/code_assembler/rebuilder.py:70-108 | metadata that is not an object raises (`.get` fails) before anything is made; otherwise the directory is made exactly outside a dry run, it raises exactly when iterating `files` does, and the count is at most the number of keys |
| Rebuild.RebuildGuarantees | src/code_assembler/rebuilder.py:60-108 | a dry run writes nothing and makes no directory; every new or changed file comes from a readable Markdown file and is named by some safe key whose block the finder returns with that file's content |
| Rebuild.Paths | tests/test_rebuild.py:35-58 | the paths of a snapshot's files, in order |
| Rebuild.RebuildsSnapshot | tests/test_rebuild.py:35-81 | rebuilding a snapshot the writer produced creates every file with exactly its content, with no messages unless a file was truncated; stated when each header is the first to name its path, no content holds `` \n``` ``, no marker precedes the metadata block, the JSON is embeddable, and the paths are safe, writable, not the output directory and name different files |
| Rebuild.RebuildsAll | src/code_assembler/rebuilder.py:60-108 | the same for any text and finder that read back the metadata and each block, when the paths are safe, writable, not the output directory and name different files |
| Rebuild.PathsWritten | src/code_assembler/rebuilder.py:96-98 | outside a dry run with every file writable (safe, not failing, not the output directory), each snapshot path is written |
| Rebuild.RunWritesAll | src/code_assembler/rebuilder.py:96-98 | with every file writable and no two paths naming the same file, each path's file holds its content after the loop |
| Rebuild.RunCountsAll | src/code_assembler/rebuilder.py:104 | with every file writable, all are counted |
| Rebuild.RunQuietAll | src/code_assembler/rebuilder.py:100-106 | with every file writable and none truncated, no message |
| Rebuild.CodebaseRebuilder.constructor | src/code_assembler/rebuilder.py:17-22 | the inputs are stored, `output_dir` among them; the metadata is `{}`, the text `""` |
| Rebuild.CodebaseRebuilder.ExtractMetadata | src/code_assembler/rebuilder.py:24-40 | raises exactly when the file exists but cannot be read; true exactly when metadata was read, and then `metadata` holds it; the text is stored whenever it was read |
| Rebuild.CodebaseRebuilder.RebuildFile | src/code_assembler/rebuilder.py:78-106 | one turn of the loop: content missing, then unsafe path, then dry run, then the write and its warning, as in `Step` |
| Rebuild.CodebaseRebuilder.RebuildFiles | src/code_assembler/rebuilder.py:77-106 | the loop over keys computes `Run` on the text read and the current tree |
| Rebuild.CodebaseRebuilder.Rebuild | src/code_assembler/rebuilder.py:60-108 | `rebuild` computes `RebuildOf`: count, messages, whether it raised (an unreadable file, metadata that is not an object, a path that is not a string), the files on disk, keyed by the name each key gives its file, and whether the directory was made |
| Utils.NormalizeText | src/code_assembler/utils.py:27 | no backslash, no upper-case letter, no trailing `/` |
| Utils.NormalizePath | src/code_assembler/utils.py:15-27 | `""` for the empty path; otherwise no backslash, no upper-case letter, no trailing `/` |
| Utils.NormalizeTextIdempotent | src/code_assembler/utils.py:27 | normalising a normalised text changes nothing |
| Utils.Slugify | src/code_assembler/utils.py:30-34 | same length, only `[a-z0-9_]`; `_` exactly where the input was not an ASCII letter or digit (or was `_`), and every letter or digit becomes its lower-case self |
| Utils.SlugifyIdempotent | src/code_assembler/utils.py:34 | slugging a slug changes nothing |
| Utils.SlugifyCaseBlind | src/code_assembler/utils.py:34 | the slug does not depend on case |
| Utils.Parts | src/code_assembler/utils.py:45 | the part set: exactly the non-empty pieces of the split |
| Utils.ShouldExclude | src/code_assembler/utils.py:37-71 | true exactly when some non-empty pattern hits. A simple pattern hits when some part starts or ends with it, lower-cased. A path pattern hits when the path equals it or lies below it. False for an empty list |
| Utils.EmptyPatternIgnored | src/code_assembler/utils.py:48-49 | adding an empty pattern changes nothing |
| Utils.ExcludedSplit | src/code_assembler/utils.py:47-71 | excluded by a concatenated list exactly when excluded by one of the two |
| Utils.SimplePatternCaseBlind | src/code_assembler/utils.py:53 | a simple pattern's case does not matter |
| Utils.PrefixPartCaught | src/code_assembler/utils.py:60-62 | a last part starting with the pattern is caught: `env` excludes `environment.py` |
| Utils.EstimateTokens | src/code_assembler/utils.py:74-78 | `len(text) // 4`: the largest `r` with `4r <= len(text)` |
| Utils.GroupCommas | src/code_assembler/utils.py:92-96 | the digits are grouped by three from the right: a comma at exactly every fourth place from the end |
| Utils.FormatNumber | src/code_assembler/utils.py:92-96 | `f"{num:,}"`: starts with `-` exactly when negative |
| Utils.StripGroup | src/code_assembler/utils.py:96 | removing the commas from the grouped digits gives the digits back |
| Utils.FormatNumberDigits | src/code_assembler/utils.py:92-96 | removing the commas gives back `str(num)` |
| Config.WithDot | src/code_assembler/config.py:58-69 | an extension that is not an exact name starts with `.` afterwards: unchanged exactly when it already did, otherwise prefixed with `.` |
| Config.NormalizedExtensions | src/code_assembler/config.py:56-71 | every normalised extension starts with `.` |
| Config.ExactNames | src/code_assembler/config.py:64-66 | every exact filename is non-empty, starts upper-case and holds no `.` |
| Config.ClassifyCounts | src/code_assembler/config.py:56-71 | each entry lands in exactly one list: the lengths add up, duplicates kept |
| Config.ClassifyMembers | src/code_assembler/config.py:57-69 | the exact names are exactly the upper-case dot-less entries; every other entry appears dotted among the extensions |
| Config.NormalizedAppend | src/code_assembler/config.py:57-69 | the split works entry by entry, in order |
| Config.NormalizeTwice | src/code_assembler/config.py:57-71 | normalising normalised extensions changes nothing and finds no exact names |
| Config.FirstEmpty | src/code_assembler/config.py:64 | the first empty entry, where `ext[0]` raises `IndexError` |
| Config.FirstEmptyAt | src/code_assembler/config.py:64 | an empty entry with none before it is the first empty one |
| Config.AssemblerConfig.constructor | src/code_assembler/config.py:30-46 | the fields hold what was given |
| Config.AssemblerConfig.PostInit | src/code_assembler/config.py:48-80 | no paths or no extensions: that error, nothing changed. An empty extension: `IndexError`, after the exact names before it were appended. Otherwise the extensions are normalised, the exact names appended, the default excludes merged without duplicates, and it fails exactly when the size is not positive |
| Config.DefaultExcludesUnion | src/code_assembler/config.py:74-77 | the merged patterns are duplicate-free and exactly the user's plus the defaults |
| Config.FileEntry.Name | src/code_assembler/config.py:111-113 | `Path(path).name`: the last part of the path; no `/`, empty only for a path without parts |
| Config.FileEntry.IsFile | src/code_assembler/config.py:115-121 | an entry is never both a file and a directory |
| Config.CountTotalBump | src/code_assembler/config.py:146-148 | bumping one listed count adds one to the total |
| Config.ItemsSum | src/code_assembler/config.py:132 | the items of listed keys add up to their total |
| Config.LargestStep | src/code_assembler/config.py:137-139 | always some file; a tie keeps the file already held |
| Config.LargestIsFirstMaximum | src/code_assembler/config.py:137-139 | after a run of updates the largest file is one of maximal size, and the first such |
| Config.SkipEntry | src/code_assembler/config.py:150-152 | `"path (reason)"`: starts with the path; just the path exactly when the reason is empty; otherwise the path, ` (`, the reason and `)` |
| Config.CodebaseStats.Items | src/code_assembler/config.py:132 | `files_by_ext.items()`: one item per extension, and their counts add up to `total_files` |
| Config.CodebaseStats.constructor | src/code_assembler/config.py:124-135 | all counters zero, no extension, no largest file, nothing skipped |
| Config.CodebaseStats.UpdateLargestFile | src/code_assembler/config.py:137-139 | the largest file after one step; nothing else changes |
| Config.CodebaseStats.AddFile | src/code_assembler/config.py:141-148 | one more file, its lines and size added, its extension counted once more; the counts still add up to `total_files`; nothing else changes |
| Config.CodebaseStats.SkipFile | src/code_assembler/config.py:150-152 | appends the entry and changes nothing else |
| Analyzers.LastIsMax | src/code_assembler/analyzers.py:80-83 | in an ascending list holding exactly the depths seen, the last depth is `max(depth_counts.keys())` |
| Analyzers.SortByDepth | src/code_assembler/analyzers.py:83 | `sorted(items)`: same items and same total |
| Analyzers.SortByDepthAscending | src/code_assembler/analyzers.py:83 | distinct depths come out strictly ascending |
| Analyzers.MaxOf | src/code_assembler/analyzers.py:81 | `max`: a member, and at least every member |
| Analyzers.TallyStep | src/code_assembler/analyzers.py:76-78 | one more entry keeps the tally exact: a file bumps its depth's count |
| Analyzers.SortedTally | src/code_assembler/analyzers.py:80-83 | the sorted tally is the depth distribution, and its last depth is the maximum |
| Analyzers.ArchitectureAnalyzer.constructor | src/code_assembler/analyzers.py:19-28 | the entries and the statistics are stored |
| Analyzers.ArchitectureAnalyzer.GetDepthDistribution | src/code_assembler/analyzers.py:73-83 | one entry per depth holding a file, ascending, with its file count; the counts sum to the number of files. `max_depth` becomes the deepest such depth, and is untouched without files |
| Analyzers.Root | src/code_assembler/analyzers.py:51-52 | `commonpath` of the entries: a prefix of every entry's parts |
| Analyzers.EntryParts | src/code_assembler/analyzers.py:51 | one part list per entry, in order |
| Analyzers.TopsOf | src/code_assembler/analyzers.py:57-64 | the set `top_dirs` as a list: no name twice |
| Analyzers.TopsOfMembers | src/code_assembler/analyzers.py:57-64 | the gathered top directories are exactly the first parts below the root of paths at least two parts below it |
| Analyzers.ArchitectureAnalyzer.TopDirs | src/code_assembler/analyzers.py:57-64 | the first loop gathers the top directories once each |
| Analyzers.ArchitectureAnalyzer.ComponentCounts | src/code_assembler/analyzers.py:66-69 | each name with the number of files whose parts include it |
| Analyzers.ComponentsFromTops | src/code_assembler/analyzers.py:66-71 | counting the sorted top directories gives the components |
| Analyzers.ArchitectureAnalyzer.GetComponents | src/code_assembler/analyzers.py:45-71 | `[]` without entries. None exactly when `commonpath` raises (absolute and relative paths mixed). Otherwise the top directories, sorted, once each, each counted |
| Analyzers.DetectedDescriptionsMembers | src/code_assembler/analyzers.py:146-150 | a description is gathered exactly when some pattern with it is detected |
| Analyzers.GroupOfSound | src/code_assembler/analyzers.py:111-116 | every grouped name is the lower-cased name of a file entry |
| Analyzers.GroupOfComplete | src/code_assembler/analyzers.py:111-116 | every file entry's name is grouped under its parent |
| Analyzers.GroupedDetection | src/code_assembler/analyzers.py:146-150 | scanning the directories finds a pattern exactly when some file's name holds one of its indicators |
| Analyzers.AnyDirShows | src/code_assembler/analyzers.py:147-150 | the inner loop with `break` finds exactly whether some directory shows an indicator |
| Analyzers.SortedDetections | src/code_assembler/analyzers.py:152 | the detections, de-duplicated and sorted, are sorted, duplicate-free and exactly the detected descriptions |
| Analyzers.ArchitectureAnalyzer.GetPatterns | src/code_assembler/analyzers.py:109-152 | sorted, duplicate-free, and holding a description exactly when some file name holds one of that pattern's indicators |
| Analyzers.SlashIndicatorInert | src/code_assembler/analyzers.py:132-142 | an indicator holding `/` never occurs in a file name |
| Analyzers.DirectoryIndicatorsInert | src/code_assembler/analyzers.py:132-142 | `docs/`, `documentation/` and `migrations/` never match a file name: documentation is detected only through `readme.md`, the database layer only through its three file names |
| Analyzers.InsertByCountDescending | src/code_assembler/analyzers.py:92-96 | insertion keeps counts descending |
| Analyzers.SortByCount | src/code_assembler/analyzers.py:92-96 | the sort is a permutation |
| Analyzers.SortByCountDescending | src/code_assembler/analyzers.py:92-96 | the result is by count, descending |
| Analyzers.InsertByCountStable | src/code_assembler/analyzers.py:92-96 | an inserted item comes after the earlier items of equal count |
| Analyzers.SortByCountStable | src/code_assembler/analyzers.py:92-96 | items of equal count keep their order (Python's sort is stable, also with `reverse=True`) |
| Analyzers.ArchitectureAnalyzer.Distribution | src/code_assembler/analyzers.py:85-98 | `[]` without extensions; otherwise a stable descending permutation of the extension counts, one item per extension, each with its count in `files_by_ext` |
| Analyzers.ArchitectureAnalyzer.AnalyzeData | src/code_assembler/analyzers.py:30-43 | depth distribution first (setting `max_depth`), then components, distribution and patterns, each as specified; None where `_get_components` raises |

## Left out

- Host path semantics are parameters, not modelled:
  - `Path(path)`, `is_absolute` and `resolve()` in `normalize_path` are one
    parameter (`pathText`), applied to every non-empty path;
  - `os.path.isfile`, `getcwd` and `getmtime` come from the host record;
  - `commonpath`, `relpath` and `Path.parent` are modelled on POSIX parts.
    The Windows branches (drive letters, `\` separators in `commonpath`) are
    not modelled.
- Date parsing accepts only zero-padded fields and one space between date
  and time. `strptime` also accepts `2024-1-5 9:3`, a `%d` padded with a
  space, and any run of white space between date and time; those entries
  are dropped here.
- Metadata.ParseStamp: accepts only ASCII digits. The `\d` of `strptime`
  matches any Unicode decimal digit and `int()` reads it, so the code also
  parses `٢٠٢٤-01-05 09:03` (Arabic-Indic year); the model drops that entry.
- `..` in paths is not collapsed. `os.path.relpath` normalises the path
  first, and `AbsParts`/`RelPath` do not: with current files
  `/p/a/../b.py` and `/p/c.py` and snapshot key `b.py`, the code finds key
  `b.py` and the model looks up `a/../b.py`.
- Case folding is ASCII only (`lower`, `isupper`, `[a-zA-Z0-9]`), not
  Unicode. The block finder ignores `re.IGNORECASE`. It looks for one `#`
  before the path, where the pattern allows `#+`.
- The JSON decoder is a parameter, and so is the block finder used by the
  rebuilder. `Blocks.FindBlock` is specified for written snapshots, not for
  every text the regex engine could meet.
- Rebuild.RebuildsSnapshot, Rebuild.RebuildsAll and Rebuild.RunWritesAll:
  stated only for snapshots whose paths name different files
  (`SeparateFiles`) and never the output directory itself. With aliasing
  keys such as `a` and `./a`, the last key written wins (`Rebuild.Run`,
  `Rebuild.LaterAliasWins`) and the earlier file's content is lost.
- The failing writes are a map fixed in advance, by key. A write that fails
  because an earlier key made a file where a later key needs a directory
  (`a`, then `a/b`) is modelled only when that key is listed there.
- `Rebuild.IsDirectory` quotes the directory name with `'`, as `repr` does
  for a name holding no quote; `repr`'s other quoting and escapes are not
  modelled.
- Set iteration order is not modelled:
  - `list(set(...))` in `__post_init__` is modelled as first-occurrence order
    (`Strings.Dedup`); Python's order is arbitrary;
  - current files and the delta's sets are taken in any given order. The
    summary is proved not to depend on it.
- Floating point is left out: `format_file_size`, the percentages of
  `_get_distribution`, and `max_file_size_mb` beyond its sign check.
- `LANGUAGE_MAP` lookups (`lang`) are left out. The distribution keeps only
  extension, count and order.
- File I/O, `mkdir`, `print` of dry-run lines, Jinja2 templating and the
  metadata writer are outside the model. The snapshot shape comes from
  tests/test_rebuild.py:35-58.
- `AssemblerConfig` fields that `__post_init__` does not touch are not
  modelled: output file, recursion, README inclusion, truncation, progress.
  `to_dict`/`from_dict` are left out too. So are `get_file_extension` and
  `count_lines` in utils.py, which are not part of the core.
- Metadata.MetadataAbsent: states only the three empty cases, not the full
  result. `Metadata.CollectKeys` and `CollectValues` give the rest.
- Rebuild.KeysOf: carries no contract of its own. `Rebuild.KeysOfObject` and
  `Rebuild.StringItems` state its cases.
- Delta.Reconcile: carries no contract of its own. `Delta.ReconcileSets`
  states its meaning.
- Utils.FormatNumber: states the sign and, through
  `Utils.FormatNumberDigits` and `Utils.GroupCommas`, the digits and the
  comma places. It does not restate Python's full format mini-language.
- tests/test_utils.py:45 expects glob matching, and tests/test_utils.py:51
  expects `env` not to exclude `environment.py`. The code does neither, and
  the model follows the code (`Utils.PrefixPartCaught`).
- `get_delta` is modelled directly. The `since` argument passed by cli.py and
  the delta scenario test does not exist in `AssemblerConfig`.

## Findings

| source | as written | input that shows it | evidently intended | confidence | as-written member | corrected member |
|---|---|---|---|---|---|---|
| src/code_assembler/rebuilder.py:52-58 | the lazy `.*?` before the path lets the match start at the first header of the document and skip ahead to the first `` path` `` anywhere later, including the end of another file's header | a snapshot with the block of `s/m` followed by the block of `m`: rebuilding `m` writes the content of `s/m` | the block under the header that names exactly the requested path | not executed | Blocks.AsWrittenTakesEarlierSuffix | Blocks.DocumentBlockFound |
