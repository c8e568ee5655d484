# ETS2 driver-name tools, modelled in Dafny

The repository ships a mod for Euro Truck Simulator 2. The mod puts each
driver's ID in front of the driver's name in the game's
`driver_names.sii` file. A record in that file looks like
`name[152]: "Felix"`. The driver ID is the array index, so the mod rewrites
this record to `name[152]: "152 - Felix"`.

Three Python scripts handle those records, and this project models their
core:

- `scripts/add_driver_ids.py`, function `modify_driver_names_file`. It
  rewrites every record that is not already tagged, then reports
  (success, records found, records "modified").
- `scripts/check_driver_names_range.py`, function
  `check_driver_names_range`. It computes statistics over the records:
  smallest and largest index, the number of records, the gaps in the
  index range, the index-to-name dictionary, and the names used at more
  than one index.
- `scripts/diagnose_mod.py`, functions `check_mod_file` and
  `check_driver_names_content`. They check the entry list of the packed
  mod, and the content of its `driver_names.sii`: how many records carry
  an ID, and whether the SII header words are present.

The modules:

- `SiiPattern` (`sii_pattern.dfy`). The record pattern
  `name\[(\d+)\]:\s*"([^"]+)"` is written as a scanner: `MatchAt` tries
  it at one position, and `Scan` walks a text the way `re.findall` and
  `re.sub` do. The scanner is proved sound and complete against a
  declarative description of a match (`IsMatchAt`). `Records(t)` is what
  `re.findall` returns.
- `AddDriverIds` (`add_driver_ids.dfy`). The two "already tagged"
  guards, the callback `replace_name`, `re.sub` as `Rewrite`, the counts,
  and the whole function. Proved about the rewrite:
  - text outside the records is preserved, in order;
  - records are replaced as the guards say;
  - the default rewrite is idempotent.
- `CheckDriverNamesRange` (`check_driver_names_range.dfy`). `int()` on
  digit strings, `min`/`max`, the gap list, and the dictionary comprehension
  `names`, modelled as a Python dict with insertion order. The grouping
  loop over `names.items()` is a method with loop invariants.
- `DiagnoseMod` (`diagnose_mod.dfy`). The entry-list predicates, the
  search loop for the `driver_names.sii` entry (a method), the second
  pattern that requires an ID in the value, and the content check.
  Proved about the two scripts together: after the default rewrite,
  the diagnostic counts every record as tagged, provided no record was
  already tagged in a shape the diagnostic rejects.
- `Wrappers` (`wrappers.dfy`). `Option`.

File access, zip archives and output are turned into inputs:

- the text that was read, or `None` when reading or decoding fails;
- whether writing succeeds;
- the archive's entry list and the text of each readable entry.

Where a reading of the scripts' output or of their names might suggest
otherwise, the model follows the code:

- Nothing separates the `]` from the `:`. The pattern allows whitespace
  only after the colon.
- `duplicates` lists the indices of a name in the order of the `names`
  dictionary. For each index, that is the position where the index first
  occurs. The lists are not sorted.
- The "modified" count tests only the `N - ` shape. A `[N]`-tagged record
  is counted as modified although `replace_name` leaves it alone. See
  Findings.
- A value counts as tagged for the rewriter when it starts with
  `\d+\s*-`. The diagnostic also wants one more character after the
  hyphen.

## Model

| member | source | states |
|---|---|---|
| SiiPattern.RunEnd | scripts/add_driver_ids.py:36 | A greedy `\d*`, `\s*` or `[^"]*` stops at the first character outside its class, and every character it passed over is in the class |
| SiiPattern.RunEndAt | scripts/add_driver_ids.py:36 | A run ends exactly where its class ends: any position that bounds class characters and is followed by a non-class character or the end is the run's end |
| SiiPattern.MatchAtSound | scripts/add_driver_ids.py:36 | Whatever the scanner finds at a position is a match of the pattern: `name[`, one or more ASCII digits, `]:`, whitespace, and a non-empty quote-free value between quotes, all at the start of the text |
| SiiPattern.MatchAtComplete | scripts/add_driver_ids.py:36 | Every match of the pattern at a position is the one the scanner returns, so the pattern matches in at most one way and no backtracking is needed |
| SiiPattern.MatchSource | scripts/add_driver_ids.py:36 | A record's own text, followed by anything, is matched as that record |
| SiiPattern.Scan | scripts/add_driver_ids.py:50 | The left-to-right scan splits the text into records and single characters whose concatenation is the text, and every record is well formed |
| SiiPattern.ScanSome | scripts/add_driver_ids.py:58 | A record at the start is the first element of `re.findall`, and the scan resumes right after it |
| SiiPattern.ScanNone | scripts/add_driver_ids.py:58 | Without a match at the start, the scan resumes one character later and the records are those of the rest |
| SiiPattern.RecordsWellFormed | scripts/check_driver_names_range.py:32 | Every record `re.findall` returns has a non-empty digit index and a non-empty quote-free value |
| AddDriverIds.DashTaggedIff | scripts/add_driver_ids.py:43 | In both directions, the `^\d+\s*-\s*` guard holds exactly when the value starts with one or more digits, then optional whitespace, then a hyphen |
| AddDriverIds.BracketTaggedIff | scripts/add_driver_ids.py:43 | In both directions, the `^\[\d+\]` guard holds exactly when the value starts with `[`, one or more digits, then `]` |
| AddDriverIds.DefaultFormat | scripts/add_driver_ids.py:47 | The default format `"{index} - {name}"` renders as index, ` - `, name |
| AddDriverIds.ModifiedCount | scripts/add_driver_ids.py:59 | The modified count is the number of records whose value lacks the `digits - ` shape, and never exceeds the number of records |
| AddDriverIds.ModifyDriverNamesFile | scripts/add_driver_ids.py:30-64 | The function succeeds exactly when the input is read and the output written. On failure it returns (False, 0, 0) and records no output text (`written == None`). On success it writes the rewritten text, and reports the number of records and the untagged count, which is at most the number of records |
| AddDriverIds.RewriteNone | scripts/add_driver_ids.py:50 | A character where no record starts is copied to the output and the rewrite goes on after it |
| AddDriverIds.RewriteSome | scripts/add_driver_ids.py:50 | A record at the start is replaced by what `replace_name` returns, followed by the rewrite of the rest |
| AddDriverIds.RecordRewrite | scripts/add_driver_ids.py:38-50 | A text that begins with a record is rewritten as that record's replacement followed by the rewrite of what follows |
| AddDriverIds.TaggedRecordKept | scripts/add_driver_ids.py:42-44 | A record whose value passes either guard is written back character for character, whitespace after the colon included |
| AddDriverIds.UntaggedRecordTagged | scripts/add_driver_ids.py:46-48 | Any other record becomes `name[index]: "index - name"`, with one space after the colon |
| AddDriverIds.NoRecordsUnchanged | scripts/add_driver_ids.py:50 | A text without records is written out unchanged |
| AddDriverIds.UnmatchedCharPreserved | scripts/add_driver_ids.py:50 | Every character outside the records appears unchanged in the output, where its piece is emitted |
| AddDriverIds.EmitPosIncreasing | scripts/add_driver_ids.py:50 | Pieces are emitted in input order, each taking at least one character of output |
| AddDriverIds.NoMatchSurvivesRewrite | scripts/add_driver_ids.py:50 | The rewrite creates no new match: if no record starts before a text, none starts before its rewrite either |
| AddDriverIds.RenderedIsStable | scripts/add_driver_ids.py:38-48 | What the default callback emits for a record is itself a record, and its value passes the guard |
| AddDriverIds.RewriteIdempotent | scripts/add_driver_ids.py:42-50 | With the default format, running the script on its own output changes nothing |
| AddDriverIds.SingleRecordFile | scripts/add_driver_ids.py:50-61 | A file holding one record reports one record found, and one modified unless the value has the dash shape, and writes that record's replacement |
| AddDriverIds.FelixExample | scripts/add_driver_ids.py:46-48 | `name[152]: "Felix"` becomes `name[152]: "152 - Felix"`. The report is (True, 1, 1) |
| AddDriverIds.DashTaggedExample | scripts/add_driver_ids.py:43-59 | `name[7]: "7 - Alex"` is written back unchanged. The report is (True, 1, 0) |
| AddDriverIds.BracketTaggedCountedAsModified | scripts/add_driver_ids.py:43-59 | `name[9]: "[9] Alex"` is written back unchanged, yet the report is (True, 1, 1) |
| AddDriverIds.OneRecord | scripts/add_driver_ids.py:58 | A text that is exactly one record has that record as its only match |
| AddDriverIds.ChangedCount | scripts/add_driver_ids.py:57-59 | Corrected count: the records that neither guard protects, which with the protected ones make up all the records |
| AddDriverIds.ReplaceNameChanges | scripts/add_driver_ids.py:42-48 | In both directions, the default callback changes a record's text exactly when neither guard holds |
| AddDriverIds.ChangedCountIsChanges | scripts/add_driver_ids.py:57-59 | The corrected count is exactly the number of records whose text the rewrite changes |
| AddDriverIds.ModifiedCountOvercounts | scripts/add_driver_ids.py:59 | The script's count equals the records changed plus the records that are bracket-tagged without the dash shape |
| CheckDriverNamesRange.LeadingZero | scripts/check_driver_names_range.py:38 | Leading zeros do not change an index: `name[007]` and `name[7]` denote index 7 |
| CheckDriverNamesRange.DecimalInjective | scripts/check_driver_names_range.py:38-39 | Two digit strings without leading zeros that give the same `int()` are the same string |
| CheckDriverNamesRange.SameIndexIff | scripts/check_driver_names_range.py:38-39 | In both directions, two records share an index, and so a `names` key, exactly when their digit strings agree once leading zeros are removed |
| CheckDriverNamesRange.MinOf | scripts/check_driver_names_range.py:41 | `min(indices)` is one of the indices and no larger than any of them |
| CheckDriverNamesRange.MaxOf | scripts/check_driver_names_range.py:42 | `max(indices)` is one of the indices and no smaller than any of them |
| CheckDriverNamesRange.Gaps | scripts/check_driver_names_range.py:46-48 | The gap list is strictly increasing, and in both directions holds exactly the integers of the range that are absent |
| CheckDriverNamesRange.GapsCount | scripts/check_driver_names_range.py:46-48 | Gaps and present values together fill the range: their counts add up to its length |
| CheckDriverNamesRange.GapsOfIndices | scripts/check_driver_names_range.py:46-48 | The gaps are the integers between the smallest and the largest index that are no record's index, and the gaps plus the distinct indices number max - min + 1 |
| CheckDriverNamesRange.Put | scripts/check_driver_names_range.py:39 | One dict assignment keeps the dict valid: keys are listed once each, and the listed keys are exactly the mapped ones |
| CheckDriverNamesRange.NamesDict | scripts/check_driver_names_range.py:39 | The comprehension builds a valid dict |
| CheckDriverNamesRange.NamesKeys | scripts/check_driver_names_range.py:39 | The keys of `names` are exactly the indices the pairs carry |
| CheckDriverNamesRange.NamesCoverIndices | scripts/check_driver_names_range.py:38-39 | `names` has one key per distinct index of the records, and as many entries as there are distinct indices |
| CheckDriverNamesRange.NamesLastWins | scripts/check_driver_names_range.py:39 | For an index that occurs more than once, the last record with that index supplies the name |
| CheckDriverNamesRange.NamesFirstSeen | scripts/check_driver_names_range.py:39 | Keys are in the order of their first occurrence: of two listed keys, the earlier one occurs before the later one first appears |
| CheckDriverNamesRange.IndicesNamedMembers | scripts/check_driver_names_range.py:51-55 | In both directions, a name's list holds exactly the keys that carry that name |
| CheckDriverNamesRange.IndicesNamedDistinct | scripts/check_driver_names_range.py:51-55 | No index appears twice in a name's list |
| CheckDriverNamesRange.IndicesNamedShared | scripts/check_driver_names_range.py:50-57 | In both directions, a name's list has two or more entries exactly when two different keys carry it |
| CheckDriverNamesRange.NameToIndices | scripts/check_driver_names_range.py:51-55 | The loop maps exactly the names present to their indices, in the order of `names.items()` |
| CheckDriverNamesRange.DuplicatesShared | scripts/check_driver_names_range.py:50-57 | In both directions, a name is a duplicate exactly when two different keys of `names` carry it |
| CheckDriverNamesRange.CheckDriverNamesRange | scripts/check_driver_names_range.py:26-69 | The function returns None exactly when the file cannot be read or has no records. Otherwise it returns the count, the true minimum and maximum, the sorted and complete gap list with its size, `names` as the comprehension builds it, and exactly the duplicated names with their index lists |
| DiagnoseMod.ContainsFrom | scripts/diagnose_mod.py:26 | In both directions, the search from a position succeeds exactly when the substring occurs at or after it |
| DiagnoseMod.Contains | scripts/diagnose_mod.py:26 | In both directions, `sub in s` holds exactly when `sub` occurs somewhere in `s` |
| DiagnoseMod.Select | scripts/diagnose_mod.py:35 | In both directions, the comprehension keeps exactly the entries that pass the test, and no more entries than were given |
| DiagnoseMod.SelectAppend | scripts/diagnose_mod.py:46 | Filtering keeps archive order: it distributes over concatenation |
| DiagnoseMod.AnyEntry | scripts/diagnose_mod.py:26-28 | In both directions, `any(...)` holds exactly when some entry passes |
| DiagnoseMod.AnyIffSelected | scripts/diagnose_mod.py:26-35 | `any(...)` holds exactly when the corresponding comprehension is non-empty |
| DiagnoseMod.CheckModFile | scripts/diagnose_mod.py:10-56 | The check passes exactly when the archive is readable and some entries name `manifest.sii`, `desc.txt` and `driver_names.sii`. In both directions, each flag holds exactly when such an entry exists, and the documentation list is exactly the `.md` and `EXAMPLE` entries |
| DiagnoseMod.DriverNamesPathsListed | scripts/diagnose_mod.py:35-36 | The reported paths are the matching entries, in archive order. There are none exactly when the `driver_names.sii` flag is false |
| DiagnoseMod.DocFilesIgnored | scripts/diagnose_mod.py:46-52 | Adding documentation entries that name none of the required files leaves the verdict unchanged, and appends them to the documentation list |
| DiagnoseMod.FirstDriverNames | scripts/diagnose_mod.py:66-70 | In both directions, there is no result exactly when no entry contains both `driver_names.sii` and `universal`. Otherwise the result is the first entry that does |
| DiagnoseMod.FindDriverNamesEntry | scripts/diagnose_mod.py:66-70 | The loop with `break` yields the entry at the position `FirstDriverNames` gives, or None when it gives none |
| DiagnoseMod.IdTaggedIff | scripts/diagnose_mod.py:94 | In both directions, a value is tagged for the diagnostic exactly when it starts with digits, then whitespace, then a hyphen, and has at least one character after the hyphen |
| DiagnoseMod.IdTaggedIsDashTagged | scripts/diagnose_mod.py:94 | Every value the diagnostic counts as tagged also passes the rewriter's dash guard |
| DiagnoseMod.DashTaggedNotIdTagged | scripts/diagnose_mod.py:94 | The converse fails: `1 -` passes the dash guard but has nothing after the hyphen |
| DiagnoseMod.CountTaggedAt | scripts/diagnose_mod.py:94-95 | A tagged match at the start is counted, and the count resumes after it |
| DiagnoseMod.CountTaggedRecord | scripts/diagnose_mod.py:94-95 | A record with a tagged value, followed by any text, adds exactly one to the count of that text |
| DiagnoseMod.SkipUntaggedRecord | scripts/diagnose_mod.py:94-95 | Where a record's value is not tagged, the tagged pattern's scan resumes one character later and finds nothing before the record's opening quote |
| DiagnoseMod.NestedRecord | scripts/diagnose_mod.py:94-104 | A record whose untagged value is a prefix without `n` followed by the head of a tagged record, with an inner value shorter than eight characters, is one record for the plain pattern and one tagged match for the tagged pattern |
| DiagnoseMod.CheckDriverNamesContent | scripts/diagnose_mod.py:58-120 | The content check fails when the archive is unreadable, or no entry qualifies, or the entry is unreadable, and otherwise passes exactly when the text contains `SiiNunit` and `driver_names`. The entry read is the first qualifying one. On success the report holds the tagged count, and the plain count only when no record is tagged |
| DiagnoseMod.AllTaggedAfterRewrite | scripts/diagnose_mod.py:94-95 | After the default rewrite the diagnostic counts every record as tagged, provided no record was already tagged in a shape it rejects |
| DiagnoseMod.RewrittenValueTagged | scripts/diagnose_mod.py:94 | Every value the rewriter formats is tagged in the diagnostic's sense |
| DiagnoseMod.KeptButNotCounted | scripts/diagnose_mod.py:94-95 | A short record kept as it is by the rewriter, but not tagged for the diagnostic, is one record and zero tagged entries |
| DiagnoseMod.BracketTagNotCounted | scripts/diagnose_mod.py:94-95 | `name[9]: "[9] A"` is left unchanged by the rewrite and counted as no tagged entry, so `AllTaggedAfterRewrite` needs its precondition |
| DiagnoseMod.BracketTagHidesMatch | scripts/diagnose_mod.py:94-104 | In `name[1]: "[1] name[2]:"3 - A"` the plain pattern finds one bracket-tagged record, while the tagged pattern finds a match inside it |

## Left out

- File and archive access are inputs, not operations. Not modelled: opening, decoding, `zipfile`, `os.makedirs`, and newline translation. Nor is the exception for `os.makedirs('')` when the output has no directory, which reaches the model only as a failed write.
- Printing and the command-line `main` functions are left out. So are the recommendation thresholds printed at scripts/check_driver_names_range.py:130-137 and the five-line preview loop at scripts/diagnose_mod.py:82-90, because none of them affects a result.
- The `Example:` lines that print `matches[0]` and `matches2[0]` at scripts/diagnose_mod.py:99 and 107 are left out, because they are output only.
- `\d` is ASCII digits here. Python's `\d` on `str` also matches other Unicode decimal digits, and `int()` would accept them.
- The 4300-digit limit of `int()` and memory exhaustion are not modelled.
- CheckDriverNamesRange.DecimalValue: it is total and gives 0 for a non-digit, a case that never arises because indices come from `\d+`.
- AddDriverIds.ModifyDriverNamesFile: a write that fails after the output file was opened with `'w'` (scripts/add_driver_ids.py:54) leaves that file truncated or partly written, and directories already made by `os.makedirs` (line 53) stay. The model only records that no output text results.
- AddDriverIds.ModifyDriverNamesFile: `format_string` is taken already split into literal text and the fields `{index}` and `{name}`. Other `str.format` syntax, and its errors, are not modelled.
- AddDriverIds.RewriteIdempotent: proved for the default format only. Other formats can produce values that neither guard recognises.
- DiagnoseMod.AllTaggedAfterRewrite: stated for the default format only.
- DiagnoseMod.NestedRecord: proved only when the prefix before the inner head holds no `n` and the inner value is shorter than eight characters; these bounds keep the tagged scan's unfolding small.
- CheckDriverNamesRange.CheckDriverNamesRange: `duplicates` is a Dafny map, so the insertion order of its keys is not modelled. The order inside each index list is.
- Any other file of the repository is not part of this model. This includes `scripts/find_driver_names.py` and the C++ logger under `mods/ticker_logger_cpp`.

## Findings

| source | as written | input that shows it | evidently intended | confidence | as-written member | corrected member |
|---|---|---|---|---|---|---|
| scripts/add_driver_ids.py:59 | the "modified" count excludes only values with the `digits - ` shape, while `replace_name` (line 43) also leaves `[digits]` values alone | `name[9]: "[9] Alex"`: written back unchanged, reported as (True, 1, 1) | count the records the rewrite changes, i.e. those that neither guard protects | medium, not executed | AddDriverIds.BracketTaggedCountedAsModified | AddDriverIds.ChangedCountIsChanges |
