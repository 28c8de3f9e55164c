# Dated cache-file cleanup, modelled in Dafny

`cleanup_cache_files.py` prunes dated cache and report files. It walks a
directory and keeps the entries that pass four tests:

1. the entry is a regular file;
2. its lower-cased suffix is in the allowed extension list;
3. no skip token occurs in its name, ignoring case;
4. a date can be read from its name.

It then deletes every kept file whose date is strictly more than the
retention window before today. In a dry run it deletes nothing, but it
reports and counts the same files.

This project models that core:

- the two date shapes and `extract_date_from_filename`
  (`date_patterns.dfy`). Each shape is searched with a left-to-right scan of
  non-overlapping occurrences, as `re.finditer` does. The first shape that
  occurs at all decides, through its last occurrence, even when that
  occurrence is not a valid date;
- the calendar rules of `datetime.date` that extraction and the age
  computation rely on (`calendar.dfy`);
- `normalize_extensions`, `should_skip`, `Path.name` and `Path.suffix`
  (`file_names.dfy`, with the string helpers in `text.dfy`);
- `gather_candidates` over the sequence of entries the directory walk yields
  (`candidates.dfy`);
- `cleanup` as a loop over a `FileSystem` object whose set of files it
  changes, and the part of `main` after argument parsing
  (`retention.dfy`);
- worked runs on one-file directories (`scenarios.dfy`).

The deciding occurrence is the last one that the non-overlapping scan
finds, which is not always the rightmost occurrence in the name. In
`202501019`, for example, the scan finds the occurrence at index 0, which
gives 2025-01-01, and then resumes at index 8. The occurrence at index 1,
which gives the valid 0250-10-19, is never found.
`DatePatterns.LastOccurrenceNotRightmost` exhibits this.

## Model

| member | source | states |
|---|---|---|
| Calendar.MakeDate | cleanup_cache_files.py:68-71 | `dt.date(year, month, day)` succeeds exactly for the triples with year 1..9999, month 1..12 and a day within that month under Gregorian leap rules; any other triple is the ValueError, given here as None |
| Calendar.DaysInMonth | cleanup_cache_files.py:69 | every month has 28 to 31 days, and 29 exactly for February of a leap year |
| Calendar.Ordinal | cleanup_cache_files.py:103 | `toordinal()`: its order and injectivity are stated by OrdinalOrder, OrdinalInjective and OrdinalNextDay below |
| Calendar.Age | cleanup_cache_files.py:103 | `(today - file_date).days` as a difference of day numbers; its meaning is stated by AgeSign, OrdinalNextDay and the worked ages below |
| Calendar.OrdinalFromOne | cleanup_cache_files.py:103 | `toordinal()` numbers days from 1, given to January 1 of year 1 |
| Calendar.OrdinalNextDay | cleanup_cache_files.py:103 | consecutive calendar days have consecutive day numbers, so `(today - file_date).days` counts calendar days |
| Calendar.OrdinalOrder | cleanup_cache_files.py:103 | one date is calendar-before another exactly when its day number is smaller |
| Calendar.OrdinalInjective | cleanup_cache_files.py:103 | two dates have the same day number exactly when they are equal, so an age of 0 means the same day |
| Calendar.AgeSign | cleanup_cache_files.py:103 | `(today - file_date).days` is positive exactly for a date before today, zero exactly for today, and negative exactly for a date after today |
| Calendar.AgeAcrossYearEnd | cleanup_cache_files.py:103 | 2024-12-31 is 1 day before 2025-01-01 |
| Calendar.AgeAcrossLeapDay | cleanup_cache_files.py:103 | 2024-02-28 is 2 days before 2024-03-01, because February 29 is counted |
| Text.LowerStr | cleanup_cache_files.py:59 | `str.lower()` keeps the length and lowers each character in place, ASCII upper-case letters to lower case and nothing else |
| Text.StartsWith | cleanup_cache_files.py:59 | `ext.startswith(".")`: the prefix test NormalizeExtension branches on |
| Text.Contains | cleanup_cache_files.py:77 | Python's substring test `needle in hay` holds exactly when the needle is a prefix of some suffix of hay |
| DatePatterns.Occurrences | cleanup_cache_files.py:22-25 | entry i of the table is true exactly when the shape (`\d{4}-\d{2}-\d{2}` or `\d{8}`) matches at index i |
| DatePatterns.DatePatterns | cleanup_cache_files.py:22-25 | `DATE_PATTERNS`: `YYYY-MM-DD` is tried before `YYYYMMDD`; HyphenatedDecides and CompactDecidesOtherwise state what that order decides |
| DatePatterns.MatchesAt | cleanup_cache_files.py:22-25 | `\d{4}-\d{2}-\d{2}` or `\d{8}` matches at index i; Embedded, CompactSole and HyphenatedSole below state where it holds |
| DatePatterns.DigitsValue | cleanup_cache_files.py:67 | `int(part)` of a run of n digits is less than 10 to the n |
| DatePatterns.Groups | cleanup_cache_files.py:66-67 | the three groups read as a year below 10000 and a month and a day below 100, whatever their validity |
| DatePatterns.Scan | cleanup_cache_files.py:64 | the scan lists only matches at or after its start, and is empty exactly when there is none there |
| DatePatterns.ScanNonOverlapping | cleanup_cache_files.py:64 | the listed matches increase, and each starts at or after the end of the one before |
| DatePatterns.ScanLeftmost | cleanup_cache_files.py:64 | no match lies before the first listed one |
| DatePatterns.ScanGreedy | cleanup_cache_files.py:64 | no match lies between the end of a listed match and the next listed one, so the list is exactly what `finditer` yields and its last element is `matches[-1]` |
| DatePatterns.ScanNoneAfterLast | cleanup_cache_files.py:64 | no match starts at or after the end of the last listed one |
| DatePatterns.LastMatch | cleanup_cache_files.py:64-67 | `matches[-1]` is a match, and it is absent exactly when the shape matches nowhere; every match starts before its end |
| DatePatterns.GroupsDecimal | cleanup_cache_files.py:67 | the three groups are read as decimal numbers of 4, 2 and 2 digits |
| DatePatterns.LastDate | cleanup_cache_files.py:67-71 | `dt.date(*map(int, groups))` of the last occurrence: the date its groups spell when they form a calendar date, and None for the ValueError otherwise |
| DatePatterns.FirstPatternDate | cleanup_cache_files.py:63-72 | a date it returns is a valid calendar date, and some tried shape occurs in the name |
| DatePatterns.ExtractDate | cleanup_cache_files.py:62-72 | a date extracted from a name is a valid calendar date, and one of the two shapes occurs in the name |
| DatePatterns.HyphenatedDecides | cleanup_cache_files.py:63-71 | once `YYYY-MM-DD` occurs anywhere, its last scanned occurrence alone decides the result, valid or not |
| DatePatterns.CompactDecidesOtherwise | cleanup_cache_files.py:63-71 | with no `YYYY-MM-DD` in the name, the last scanned `YYYYMMDD` decides |
| DatePatterns.NoOccurrenceNoDate | cleanup_cache_files.py:72 | a name in which neither shape occurs has no date |
| DatePatterns.SoleOccurrence | cleanup_cache_files.py:64-67 | a shape that occurs at exactly one index is found at that index |
| DatePatterns.Embedded | cleanup_cache_files.py:22-25 | an occurrence inside a longer name is still an occurrence there, with the same groups |
| DatePatterns.CompactSole | cleanup_cache_files.py:24 | in a name made of digit-free text, eight digits and more digit-free text, the eight digits are the only `YYYYMMDD` occurrence |
| DatePatterns.NoDashNoHyphenated | cleanup_cache_files.py:23 | a name without a dash has no `YYYY-MM-DD` occurrence |
| DatePatterns.HyphenatedSole | cleanup_cache_files.py:23 | in a name around one `YYYY-MM-DD` whose other characters hold no dash, or no digit, that date is the only occurrence |
| DatePatterns.HyphenatedSoleDate | cleanup_cache_files.py:62-72 | such a name gets exactly the date its ten characters spell, or no date when they are not a calendar date |
| DatePatterns.CompactSoleDate | cleanup_cache_files.py:62-72 | a name around one `YYYYMMDD` with no other digit, dashes allowed (`report-20250101.json`), gets exactly the date those digits spell, or none |
| DatePatterns.LastOccurrenceNotRightmost | cleanup_cache_files.py:64-67 | `202501019` gives 2025-01-01, even though a valid 0250-10-19 also matches at index 1 |
| DatePatterns.InvalidHyphenatedHidesCompact | cleanup_cache_files.py:63-71 | `x_2025-13-01_20250101.json` gets no date: the invalid hyphenated date returns None before the valid compact one is tried |
| DatePatterns.InvalidCompactNoDate | cleanup_cache_files.py:68-71 | `report_20250230.json` gets no date (February 30) |
| FileNames.NormalizeExtension | cleanup_cache_files.py:59 | an entry is lower-cased, and gets a leading dot exactly when it lacks one; the result starts with a dot and has no upper-case letter |
| FileNames.NormalizeExtensions | cleanup_cache_files.py:58-59 | the result has one normalised entry per input entry, in the same order |
| FileNames.NormalizeExtensionIdempotent | cleanup_cache_files.py:59 | normalising an already normalised extension changes nothing |
| FileNames.NormalizeExtensionsIdempotent | cleanup_cache_files.py:58-59 | normalising the list twice gives the list normalised once |
| FileNames.NormalizeExtensionIgnoresCase | cleanup_cache_files.py:59 | an entry and its lower-cased form normalise alike, and an entry without a leading dot normalises like the same entry with one, so `JSON`, `.Json` and `.json` all give `.json` |
| FileNames.ShouldSkip | cleanup_cache_files.py:75-77 | a name is skipped exactly when some token, lower-cased, occurs in the lower-cased name |
| FileNames.SkippedWhenHolding | cleanup_cache_files.py:75-77 | a name that holds one of the tokens verbatim is skipped |
| FileNames.NotSkippedWithoutInitial | cleanup_cache_files.py:75-77 | a name in which the first letter of the token occurs in neither case is not skipped by it |
| FileNames.ShouldSkipEdges | cleanup_cache_files.py:77 | no tokens skip nothing; an empty token skips every name |
| FileNames.ShouldSkipIgnoresCase | cleanup_cache_files.py:76 | the skip test does not depend on the case of the name |
| FileNames.BaseName | cleanup_cache_files.py:76 | `path.name` holds no `/`, ends the path, and is preceded by `/` when shorter than the path |
| FileNames.BaseNameOfJoin | cleanup_cache_files.py:90 | the name of `dir/name` is `name` |
| FileNames.Suffix | cleanup_cache_files.py:86 | `path.suffix` is empty unless the name has a dot that is neither its first nor its last character; then it runs from the last dot to the end and holds no other dot |
| FileNames.SuffixAt | cleanup_cache_files.py:86 | when the last dot is inside the name, the suffix starts there |
| FileNames.SuffixExamples | cleanup_cache_files.py:86 | `archive.tar.gz` has suffix `.gz`; `.json`, `notes.` and `README` have none |
| Candidates.GatherCandidates | cleanup_cache_files.py:80-93 | `gather_candidates`: never yields more pairs than the walk has entries, each with a valid date; GatherSound, GatherComplete, GatherAppend and GatherOne state that it yields exactly the admitted entries, in walk order |
| Candidates.GatherSound | cleanup_cache_files.py:80-93 | every yielded pair is a regular file of the walk with an allowed suffix and no skip token, paired with the date its name gives |
| Candidates.GatherComplete | cleanup_cache_files.py:83-93 | every entry that passes the four tests is yielded |
| Candidates.GatherAppend | cleanup_cache_files.py:83 | the generator keeps the walk's order: two stretches of the walk yield their results one after the other |
| Candidates.GatherOne | cleanup_cache_files.py:84-93 | one entry yields its pair exactly when it passes the four tests |
| Candidates.Admitted | cleanup_cache_files.py:84-91 | the four tests of the generator; GatherSound, GatherComplete and GatherOne state that exactly the entries passing them are yielded |
| Candidates.SkippedNeverCandidate | cleanup_cache_files.py:88-89 | a path whose name a skip token matches is never yielded |
| Candidates.ExtensionCaseExample | cleanup_cache_files.py:86 | `reports/Report-2025-01-01.JSON` is admitted against the normalised `[".json"]`, dated 2025-01-01 |
| Retention.FileSystem.Unlink | cleanup_cache_files.py:107 | `unlink(missing_ok=True)` removes the path and nothing else, and is a no-op for a missing path |
| Retention.ElementsSnoc | cleanup_cache_files.py:109 | listing one more path adds exactly that path to the set of listed paths |
| Retention.Expired | cleanup_cache_files.py:103-104 | `age_days > keep_days`, strict; FutureRetained and BoundaryRetained state what it keeps |
| Retention.ExpiredPaths | cleanup_cache_files.py:101-109 | `deleted_paths`: never longer than the candidates; ExpiredPathsSound, ExpiredPathsComplete, ExpiredPathsSnoc and ExpiredPathsAppend state that it lists exactly the expired candidates' paths, in order |
| Retention.ExpiredPathsSound | cleanup_cache_files.py:102-109 | every listed path belongs to a candidate whose age exceeds the window |
| Retention.ExpiredPathsComplete | cleanup_cache_files.py:102-109 | every candidate whose age exceeds the window has its path listed |
| Retention.ExpiredPathsSnoc | cleanup_cache_files.py:104-109 | one more candidate adds its path to the end of the list exactly when its age exceeds the window |
| Retention.ExpiredPathsPrefix | cleanup_cache_files.py:101-109 | each turn of the loop extends the list for the first i candidates by the path of candidate i exactly when it is expired |
| Retention.ExpiredPathsAppend | cleanup_cache_files.py:102-109 | the list keeps the candidates' order |
| Retention.FutureRetained | cleanup_cache_files.py:103-104 | with a window of zero or more, a file dated after today is kept |
| Retention.BoundaryRetained | cleanup_cache_files.py:104 | a file `keepDays + 1` days old is deleted; the file dated a day later, exactly `keepDays` old, is kept |
| Retention.SkippedNeverDeleted | cleanup_cache_files.py:88-109 | a file whose name a skip token matches is never deleted, whatever its date |
| Retention.RetentionWindow | cleanup_cache_files.py:127 | `max(args.days, 0)` is at least `days` and at least 0, and equals one of them |
| Retention.DeleteExpired | cleanup_cache_files.py:100-109 | the loop counts and lists exactly the expired candidates, in order; a dry run leaves the files alone, and a real run removes exactly the listed paths |
| Retention.Cleanup | cleanup_cache_files.py:96-114 | `cleanup` returns the count and the list of the expired candidates the walk yields; the files change only in a real run, and then by exactly the listed paths |
| Retention.Run | cleanup_cache_files.py:117-131 | a missing root does nothing; otherwise cleanup runs with the normalised extensions and the window clamped at 0 |
| Scenarios.ReportCandidate | cleanup_cache_files.py:80-93 | `cache/report_20250101.json` yields the single pair dated 2025-01-01 |
| Scenarios.RetentionBoundaryScenario | cleanup_cache_files.py:102-109 | on 2025-01-10 that report, nine days old, is deleted exactly when the window is shorter than nine days |
| Scenarios.LatestNeverDeleted | cleanup_cache_files.py:47 | under the default skip token, a file whose name holds `latest`, such as `cache/data_latest_20250101.json`, is never deleted, whatever today and the window are |
| Scenarios.DryRunScenario | cleanup_cache_files.py:105-109 | a dry run over the nine-day-old report with a five-day window reports and counts it, and leaves it on disk |
| Scenarios.RealRunScenario | cleanup_cache_files.py:105-109 | the same run for real reports, counts and removes it |

## Left out

- Argument parsing (`parse_args`) is not modelled. `Run` takes its results as parameters. Because argparse appends to the default list, `latest` stays among the skip tokens even when more are given; `Scenarios.LatestNeverDeleted` uses that default.
- The directory walk (`root.rglob("*")`) and `is_file()` are not modelled as I/O. They become a fixed sequence of `Entry(path, isFile)` values, and the order of the walk is that sequence's order.
- `gather_candidates` is lazy, so its walk interleaves with the deletions in `cleanup`. The model gathers every candidate first and then runs the loop. A walk that would observe the deletions, and races with other processes, are not modelled.
- `Retention.FileSystem.Unlink` always succeeds. `path.unlink(missing_ok=True)` ignores only a missing file; any other failure, such as a PermissionError, raises and ends `cleanup` part-way, with earlier files already removed and no count returned. Such failures are not modelled.
- `target_dir.exists()` becomes the `rootExists` parameter of `Run`.
- The clock (`dt.datetime.now().date()`) becomes the `today` parameter, and it must be a valid date.
- The `print` output of `cleanup` and `main` is not modelled.
- `Retention.Run`: `main` discards what `cleanup` returns and returns None. `Run` returns `cleanup`'s result so that its contract can speak of it.
- `DatePatterns.MatchesAt`: `\d` in Python matches every Unicode decimal digit. The model matches ASCII `0`-`9` only.
- `Text.LowerStr`: `str.lower()` is Unicode-aware. The model lower-cases ASCII letters only, so names and tokens outside ASCII are compared unchanged.
- `FileNames.Suffix`: follows the `Path.suffix` rule of Python up to 3.13, under which a name ending in a single dot (`notes.`) has no suffix. Later Python versions are not modelled.
- `FileNames.BaseName`: only `/` separates path components. Windows separators and drive letters are not modelled.
- `main` passes the skip tokens through unchanged, so `Run` does not normalise them either. `should_skip` lower-cases both sides itself.
