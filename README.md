# YouTube metadata pipeline — a Dafny model

This project models the core of a small Python pipeline that fetches YouTube audio and its metadata with yt-dlp, stores one JSON file per video, and consolidates the JSON files into one table. It covers two parts.

**Per-item fetch bookkeeping.**
- `Extraction` models the URL-list filter of `load_txt` and the record builder `extract_metadata`, including the derived `year_uploaded` and `tag_count`.
- `Persist` models:
  - the filename sanitiser `safe_title`;
  - the JSON write;
  - one fetch-extract-save attempt;
  - the non-raising per-URL wrapper, which turns every exception into an error result.
- `Retry` models the retrying downloader of `processing/serial_processing.py` and its serial tally.
- `SerialLegacy` models the older root-level serial downloader, which keeps only the last URL's counts.
- `Parallel` models `download_parallel`. Results are collected in an arbitrary completion order, given as a permutation of the submitted positions, and then counted.

**Consolidation.**
- `Frames` models the small slice of pandas the pipeline uses: building a frame from records, projecting columns, deriving a column, `dropna`, `fillna(0)` and `drop_duplicates(keep="first")`.
- `Dates` models `to_datetime(format="%Y%m%d", errors="coerce")` and the year-start recomputation.
- `Validation` models `validate_columns`. It is a class `Frame` whose methods overwrite cells in place, and each method is proved against the function `Validate`.
- `Consolidation` models `processing/combine_metadata.py`: `shorten_title`, `clean_data` and `combine_metadata`.
- `ConsolidationLegacy` models the earlier variant in `extract_metadata.py`. It declares 11 columns and recomputes `year_uploaded` as January 1st of the parsed upload date's year.

The world is given to the model as parameters:
- The extractor's answer and whether the file write succeeds are an `AttemptEnv`, one per attempt.
- The retry loop receives one boolean per attempt. Its sleeps are returned as a ghost sequence of requested delays.
- The parallel completion order is a permutation of the submitted positions.
- JSON files are `Payload`s: one record or a list of records.

Records are association lists (`seq<Field>`), so key order, and with it the column order of the frame built from them, is deterministic. A table is a column list plus one `map<string, Value>` per row. A missing cell reads as `Null`.

Where the repository's own description and its code differ, the model follows the code:
- The parallel path has no retry.
- Rows whose `upload_date` does not parse are kept, with a missing date.
- The retrying downloader makes `max_retries + 1` attempts: 4 with the defaults, after waits of 5, 10 and 20 seconds.

## Model

| member | source | states |
|---|---|---|
| Values.GetFirst | processing/extract_videos.py:60-61 | `dict.get` returns the value of the first field carrying the key |
| Values.GetAbsent | processing/extract_videos.py:64-78 | `dict.get` of an absent key is None |
| Text.LStripSpec | processing/extract_videos.py:26 | `lstrip` removes exactly a whitespace prefix, leaving a suffix |
| Text.RStripSpec | processing/serial_processing.py:35 | `rstrip` removes exactly a whitespace suffix, leaving a prefix |
| Text.StripSpec | processing/extract_videos.py:26 | `strip` gives a trimmed infix of the line, with whitespace and nothing else cut on both sides |
| Text.StripEmpty | processing/extract_videos.py:26 | a line strips to the empty string exactly when it is all whitespace |
| Text.WordsProper | processing/combine_metadata.py:28 | every word of `split()` is non-empty and holds no whitespace |
| Text.WordsOfJoin | processing/combine_metadata.py:30 | splitting a single-space join of words gives the same words back |
| Text.JoinTrimmed | processing/combine_metadata.py:30 | a join of words neither starts nor ends with whitespace, and is non-empty when some word is given |
| Text.NatToString | processing/combine_metadata.py:68 | `str(n)` of a natural number is a non-empty run of digits denoting `n`, with no leading zero |
| Text.NatToStringCanonical | processing/combine_metadata.py:68 | every run of digits with no leading zero is `str` of the number it denotes, so `str(n)` is the only such spelling of `n` |
| Text.NatToStringParses | processing/combine_metadata.py:68 | `int(str(n)) == n`, so converting back undoes converting to text |
| Text.ParseDigits | processing/extract_videos.py:81 | `int()` of a non-empty run of digits is the number they denote |
| Extraction.LoadTxt | processing/extract_videos.py:26 | the filter keeps at most as many entries as there are lines |
| Extraction.LoadTxtClean | read_videos.py:16 | every kept entry is non-empty and has no surrounding whitespace |
| Extraction.LoadTxtAppend | extract_videos.py:32 | the filter works line by line: filtering a concatenation concatenates the results, so the input order is kept |
| Extraction.LoadTxtMembers | processing/extract_videos.py:26 | a string is kept exactly when it is the non-empty stripped form of some line |
| Extraction.BlankLineDropped | read_videos.py:16 | a line made only of whitespace contributes nothing |
| Extraction.YearUploaded | processing/extract_videos.py:81 | the year is None exactly when `upload_date` is falsy; otherwise it is an int, or the call raises |
| Extraction.TagsOf | processing/extract_videos.py:61 | `tags` is the input's tags when truthy, else the empty list |
| Extraction.Len | processing/extract_videos.py:82 | `len` of a list or string is its length; any other value raises |
| Extraction.ExtractMetadata | processing/extract_videos.py:51-82 | the builder succeeds exactly when the year and the tag count can be computed, and then returns exactly the 17 keys in dict-literal order |
| Extraction.MetadataKeysDistinct | processing/extract_videos.py:63-82 | the 17 keys are pairwise different |
| Extraction.GetMetadataAt | processing/extract_videos.py:63-82 | each key of the built record reads back the value listed for it |
| Extraction.ExtractMetadataCopies | processing/extract_videos.py:64-78 | every copied field, `upload_date` included, is the input's value verbatim, None when absent |
| Extraction.ExtractMetadataDerived | bda_boilerplate.py:26-48 | `duration_seconds` comes from `duration`; `tags` defaults to `[]`; `tag_count == len(tags)`; `year_uploaded` comes from `upload_date[:4]` and is None exactly when `upload_date` is falsy |
| Extraction.YearUploadedSpec | processing/extract_videos.py:81 | an `upload_date` starting with four digits gives the year those digits denote; a truthy date raises exactly when it is not a string or its first four characters are not an integer literal, and otherwise gives `int` of those characters |
| Extraction.YearUploadedExample | extract_videos.py:72 | `upload_date="20230115"` gives `year_uploaded=2023` |
| Persist.KeepAllowed | processing/serial_processing.py:35 | filtering never lengthens the title |
| Persist.KeepAllowedChars | processing/parallel_processing.py:31 | only alphanumerics, space, `_` and `-` survive the filter |
| Persist.KeepAllowedAppend | processing/serial_processing.py:35 | the filter works character by character: filtering a concatenation concatenates the results, so the order is kept |
| Persist.KeepAllowedChar | processing/serial_processing.py:35 | a single character is kept exactly when it is alphanumeric, a space, `_` or `-` |
| Persist.KeepAllowedAt | processing/parallel_processing.py:31 | each character of the title contributes itself when allowed and nothing otherwise, at its own position |
| Persist.KeepPiecesOfChars | processing/serial_processing.py:35 | filtering a text title element by element is the character filter |
| Persist.KeepPiecesChars | processing/parallel_processing.py:31 | every character of a filtered list title is allowed |
| Persist.TitleStem | processing/serial_processing.py:35 | a stem exists exactly when the title is a string or a list of strings; for a string it is `safe_title`; it holds only allowed characters |
| Persist.TitleStemOfList | processing/serial_processing.py:35 | a list title keeps its alphanumeric, space, `_` and `-` elements: `["ab", "c!", " "]` gives `ab` |
| Persist.KeepAllowedIdentity | parallel_processing.py:32 | a title made only of allowed characters passes the filter unchanged |
| Persist.SafeTitleSpec | processing/serial_processing.py:35 | `safe_title` holds only allowed characters and does not end in whitespace; it is the filtered title with only spaces cut from its end |
| Persist.SafeTitleIdempotent | serial_processing.py:20 | sanitising twice changes nothing more |
| Persist.SafeTitleCollision | extract_videos.py:78-79 | two different titles can map to the same file name |
| Persist.SaveMetadata | processing/serial_processing.py:26-39 | saving succeeds exactly when the title is a string or a list of strings and the write succeeds, into `<stem>.json`; a title of any other kind raises TypeError, a failed write reports its file name |
| Persist.RunAttemptSpec | processing/serial_processing.py:60-62 | an attempt succeeds exactly when the extractor answers, the record builds, its title is a string or a list of strings and the write succeeds; the persisted record is the built record, saved as `<stem>.json`, and carries `tag_count == len(tags)` |
| Persist.DownloadItem | processing/parallel_processing.py:40-54 | the per-URL wrapper never raises: it reports success exactly when the attempt succeeds, with the built record's title and the file name `<stem>.json` of that title, and otherwise the error text, always for its own URL |
| Retry.BackoffDoubles | processing/serial_processing.py:69-72 | each wait doubles the previous one |
| Retry.DefaultBackoff | processing/serial_processing.py:41 | with the defaults the waits are 5, 10 and 20 seconds |
| Retry.FirstSuccessSpec | processing/serial_processing.py:58-65 | the first successful attempt is preceded only by failures |
| Retry.FirstSuccessPrefix | processing/serial_processing.py:58 | only the answers within the attempt budget decide the first success inside it |
| Retry.DownloadWithRetry | processing/serial_processing.py:41-78 | a negative `max_retries` attempts nothing and returns `(0, 0)`; the first success among `max_retries + 1` attempts returns `(1, 0)` after the doubling waits before it; no success returns `(0, 1)` after `max_retries + 1` attempts and no final wait; a negative delay makes the first `time.sleep` raise |
| Retry.CountDownloaded | processing/serial_processing.py:88-93 | at most one success per URL |
| Retry.DownloadSerial | processing/serial_processing.py:80-95 | the totals add up to the number of URLs, and the successes are exactly the URLs downloaded within four attempts |
| SerialLegacy.DownloadOnce | serial_processing.py:26-43 | one attempt, no retry: exactly one counter is 1, and it is `successful` exactly when the attempt succeeds |
| SerialLegacy.CountSucceeded | serial_processing.py:48-49 | at most one success per URL |
| SerialLegacy.DownloadSerialAsWritten | serial_processing.py:45-55 | the summary is the last URL's pair; with no URL it raises NameError |
| SerialLegacy.DownloadSerialTotals | serial_processing.py:48-53 | the intended summary: the totals count the succeeding URLs and add up to the number of URLs |
| SerialLegacy.LastPairUndercounts | serial_processing.py:48-53 | two succeeding URLs are reported as one success, while the intended total is two |
| Parallel.PermutationBounds | processing/parallel_processing.py:70 | a completion order names only submitted positions |
| Parallel.ApplyPermutation | processing/parallel_processing.py:64-74 | collecting in a permuted order keeps every result exactly as often as it was submitted |
| Parallel.CountSuccessAppend | processing/parallel_processing.py:82 | the success count is additive over concatenation |
| Parallel.CountSuccessPermutation | processing/parallel_processing.py:70-83 | the success count does not depend on the order of the results |
| Parallel.Submitted | processing/parallel_processing.py:64-67 | one submission per URL, in URL order |
| Parallel.CollectedResults | processing/parallel_processing.py:67-77 | results gathered in any completion order hold every URL once and as many successes as in submission order |
| Parallel.DownloadParallel | processing/parallel_processing.py:56-85 | one result per URL; the result at completion position `k` is the submitted result of URL `order[k]`; the results' URLs are the submitted ones with the same multiplicities; `successful` equals the count over the submission-order results, so it does not depend on completion order; `successful + failed == len(urls)` |
| Dates.Fixed | processing/combine_metadata.py:68 | zero-padded formatting gives exactly `w` digits |
| Dates.FixedValue | processing/combine_metadata.py:68 | reading back a zero-padded number that fits its width gives the number |
| Dates.FixedOfDigits | processing/combine_metadata.py:36 | a run of digits is the zero-padded form of its value |
| Dates.ParseYmdSpec | processing/combine_metadata.py:36 | a parsed date is a valid, representable day, written exactly as the string it came from |
| Dates.ParseYmdRoundTrip | processing/combine_metadata.py:36 | formatting then parsing gives back every representable day and rejects every other eight-digit date |
| Dates.ToDatetime | processing/combine_metadata.py:36 | a coerced cell is missing or a valid, representable date; a string gives the date it spells, or a missing date exactly when it spells none; a missing cell stays missing |
| Dates.ToDatetimeOfDigits | processing/combine_metadata.py:36 | the `YYYYMMDD` digits of a day parse to that day when it is representable, and to a missing date otherwise |
| Dates.YearStart | extract_metadata.py:27 | the year start is missing or January 1st of the same year |
| Dates.YearStartDefined | extract_metadata.py:27 | after 1677 a valid date always has a year start |
| Dates.YearStartBeforeRange | extract_metadata.py:27 | a valid date late in 1677 has no representable year start |
| Frames.FlattenAppend | processing/combine_metadata.py:82-87 | flattening is a concatenation over the files |
| Frames.FlattenMembers | processing/combine_metadata.py:86-87 | a record is collected exactly when some file holds it |
| Frames.FlattenSingles | extract_metadata.py:74 | a file holding one record contributes exactly that record |
| Frames.CollectRecords | processing/combine_metadata.py:82-87 | the `extend` loop collects exactly the flattened records |
| Frames.AddColumns | processing/combine_metadata.py:89 | a frame's columns are the union of the records' keys |
| Frames.AddColumnsDistinct | processing/combine_metadata.py:89 | adding a record's keys keeps the column labels distinct |
| Frames.ColumnsOfSpec | processing/combine_metadata.py:89 | a column exists exactly when some record has that key, and no column repeats |
| Frames.RowOfCell | processing/combine_metadata.py:89 | each cell of a record's row is the record's value for that key, missing when absent |
| Frames.FromRecords | processing/combine_metadata.py:89 | one row per record |
| Frames.KeepColumns | processing/combine_metadata.py:34 | projection never adds columns |
| Frames.KeepColumnsMembers | processing/combine_metadata.py:34 | projection keeps exactly the columns that are declared |
| Frames.Project | processing/combine_metadata.py:34 | projection keeps every row |
| Frames.SetColumn | processing/combine_metadata.py:43 | a column assignment keeps every row and adds the column when it is new |
| Frames.DeriveColumnCell | processing/combine_metadata.py:36 | a column assignment changes only its own column: each row's new cell is computed from that row's source cell and every other cell reads as before |
| Frames.ZeroIfMissing | processing/combine_metadata.py:38-41 | `fillna(0)` turns a missing cell into 0 and keeps a present value |
| Frames.DropMissing | processing/combine_metadata.py:37 | `dropna` never adds rows |
| Frames.DropMissingMembers | processing/combine_metadata.py:37 | a row survives `dropna` exactly when its `id` and `title` are present |
| Frames.DropMissingAppend | processing/combine_metadata.py:37 | `dropna` filters row by row, keeping the order |
| Frames.DropMissingKeyValues | processing/combine_metadata.py:37 | the ids left are those of the rows with an id and a title |
| Frames.DropMissingDerive | processing/combine_metadata.py:36-37 | deriving a column outside the subset commutes with `dropna` |
| Frames.DropDuplicates | processing/combine_metadata.py:45 | deduplication never adds rows |
| Frames.HashableKeysAt | processing/combine_metadata.py:45 | the id column can be hashed for deduplication exactly when no row holds a list in it |
| Frames.DropDuplicatesKeys | processing/combine_metadata.py:45 | deduplication keeps every id once and no id twice |
| Frames.DropDuplicatesElements | processing/combine_metadata.py:45 | deduplication returns input rows only |
| Frames.DropDuplicatesPrefix | processing/combine_metadata.py:45 | the kept rows appear in input order |
| Frames.DropDuplicatesKeepsFirst | processing/combine_metadata.py:45 | the first row with an id is the one kept |
| Validation.Convert | processing/combine_metadata.py:67-68 | a successful conversion has the declared type, and converting to text always succeeds |
| Validation.Checked | processing/combine_metadata.py:66-76 | a missing or well-typed cell is kept; any other cell is converted, or set to missing when the conversion fails |
| Validation.CheckedIdempotent | processing/combine_metadata.py:66-76 | checking twice changes nothing more |
| Validation.CheckColumnCell | processing/combine_metadata.py:65-76 | the inner loop rewrites exactly the cells of its own column |
| Validation.CheckColumnsCell | processing/combine_metadata.py:60-76 | after the outer loop, a cell of a checked column is its checked original, and every other cell is untouched |
| Validation.FirstUndeclaredSpec | processing/combine_metadata.py:60-62 | the columns before the first undeclared one are declared |
| Validation.ValidateRaises | processing/combine_metadata.py:60-62 | `validate_columns` raises exactly when some column is undeclared, naming such a column |
| Validation.ValidateCells | extract_metadata.py:48-65 | with every column declared there is no error, and each cell ends up missing or of its declared type, equal to its checked original |
| Validation.Frame.SetCell | processing/combine_metadata.py:70 | `df.at[idx, col] = v` writes one cell and nothing else |
| Validation.Frame.CheckColumnInPlace | processing/combine_metadata.py:65-76 | the in-place inner loop leaves the rows that the column check specifies |
| Validation.Frame.ValidateColumns | processing/combine_metadata.py:59-76 | the in-place walk's exception and final rows are those `Validate` specifies |
| Consolidation.ShortenSpec | processing/combine_metadata.py:28-31 | more than five words give the first five joined by single spaces; otherwise the title is returned unchanged; at most five words remain |
| Consolidation.ShortenIdempotent | processing/combine_metadata.py:24-31 | shortening twice changes nothing more |
| Consolidation.ShortenTitle | processing/combine_metadata.py:26-27 | a missing title passes through, and a text title is shortened |
| Consolidation.BeforeDelimiterSpec | processing/combine_metadata.py:42 | the head is the longest delimiter-free prefix, ending at the first `-`, `\|` or `:` |
| Consolidation.LegibleCell | processing/combine_metadata.py:42-44 | the legible title is text exactly when the title is |
| Consolidation.LegibleCellWords | processing/combine_metadata.py:42-44 | the legible title is the head before the first delimiter, stripped, shortened, with its first at most five words |
| Consolidation.StripWords | processing/combine_metadata.py:43 | stripping does not change the words |
| Consolidation.FirstAbsentSpec | processing/combine_metadata.py:36-41 | the first column read that is absent is preceded only by present ones |
| Consolidation.CleanColumns | processing/combine_metadata.py:34 | the columns left are the declared input columns plus `legible_title` |
| Consolidation.CleanData | processing/combine_metadata.py:33-46 | `clean_data` raises only KeyError, or TypeError for a list id, and never adds rows |
| Consolidation.CleanRowsFrom | processing/combine_metadata.py:36-44 | each row: date parsed, counts zero-filled, legible title derived from the title, every other cell unchanged |
| Consolidation.CleanDataShape | processing/combine_metadata.py:33-46 | `clean_data` succeeds exactly when the columns it reads are present, some row has an id and a title, and no such row has a list id; otherwise KeyError for the first missing column, or TypeError for a list id; its value is the declared columns and the cleaned, deduplicated rows |
| Consolidation.CleanDataListId | processing/combine_metadata.py:37-45 | with the read columns present, any row with a title and a list as its id survives `dropna` and makes `drop_duplicates` raise TypeError |
| Consolidation.CleanDataColumns | processing/combine_metadata.py:21 | after cleaning every column is declared and the columns read are present |
| Consolidation.CleanedRowFrom | processing/combine_metadata.py:37-44 | every output row is cleaned from an input row that has an id and a title |
| Consolidation.CleanedCells | processing/combine_metadata.py:37-44 | an output row has an id and a title, each count filled with 0 when missing and kept otherwise, a valid or missing date, and a legible title of at most five words exactly when the title is text |
| Consolidation.CleanRowsIds | processing/combine_metadata.py:38-44 | the per-row steps do not change the ids |
| Consolidation.CleanedIds | processing/combine_metadata.py:45 | the output ids are pairwise different, and are exactly the ids of the rows with an id and a title |
| Consolidation.CleanedKeepsFirst | processing/combine_metadata.py:45 | the first surviving row with an id is the one kept, cleaned and in order |
| Consolidation.CombineMetadata | processing/combine_metadata.py:78-94 | the clean error (KeyError, or TypeError for a list id), or otherwise the cleaned frame with its cells validated in place |
| Consolidation.CombinedCells | processing/combine_metadata.py:90-91 | the validation never raises after cleaning, and every cell is missing or of its declared type |
| Consolidation.ExtractedRecordsClean | processing/combine_metadata.py:89-90 | records built by `extract_metadata` clean without error exactly when some has an id and a title and none of those has a list id |
| ConsolidationLegacy.CleanDataLegacy | extract_metadata.py:23-35 | this `clean_data` raises only KeyError, or TypeError for a list id, and never adds rows |
| ConsolidationLegacy.CleanDataLegacyColumns | extract_metadata.py:24 | every column this `clean_data` returns is declared in its schema, so validation finds no unexpected column |
| ConsolidationLegacy.LegacyCleanColumns | extract_metadata.py:24 | the columns left are the 11 declared ones present, plus `year_uploaded` |
| ConsolidationLegacy.LegacyCleanRowsFrom | extract_metadata.py:26-33 | each row: date parsed, year recomputed from it, counts zero-filled, every other cell unchanged |
| ConsolidationLegacy.CleanDataLegacyShape | extract_metadata.py:23-35 | succeeds exactly when the columns it reads are present and no row with an id and a title has a list id, even with no row left; otherwise KeyError for the first missing column, or TypeError for a list id; the value is the declared columns and the cleaned, deduplicated rows |
| ConsolidationLegacy.LegacyCleanedRowFrom | extract_metadata.py:29-33 | every output row is cleaned from an input row that has an id and a title |
| ConsolidationLegacy.LegacyYear | extract_metadata.py:27 | the year is missing when the date is, and is otherwise January 1st of the date's year, always present after 1677 |
| ConsolidationLegacy.LegacyCleanedIds | extract_metadata.py:34 | the output ids are pairwise different, and are exactly the ids of the rows with an id and a title |
| ConsolidationLegacy.LegacyCleanDataListId | extract_metadata.py:29-34 | with the read columns present, any row with a title and a list as its id makes this `clean_data` raise TypeError |
| ConsolidationLegacy.LegacyCleanRowsIds | extract_metadata.py:26-33 | the per-row steps leave the ids unchanged |
| ConsolidationLegacy.ExtractMetadataTable | extract_metadata.py:67-82 | the clean error (KeyError, or TypeError for a list id), or otherwise the cleaned frame validated in place, and the validation never raises |

## Left out

- **File I/O.** `open`, `json.load`, `json.dump`, `glob.glob`, `readlines`, `to_csv` and `os.makedirs` are not modelled. Files enter as `Payload`s and line lists; a write enters as the boolean `writeOk`.
- **yt-dlp.** `get_video_info` is an opaque fallible call, given as the extractor's answer in `AttemptEnv`.
- **Environment setup, logging and printing.** The `certifi` and `SSL_CERT_FILE` setup, logging configuration, `print` and `log_and_print` have no effect on the results.
- **Concurrency.** The thread pool, `as_completed` and the locks are replaced by a completion order that is any permutation of the submissions. Thread safety is not modelled. Neither is the `max_workers` parameter of `download_parallel` (default 5): with `max_workers <= 0`, `ThreadPoolExecutor` raises ValueError before any URL is submitted.
- **The parallel collection loop's `except` branch.** The per-URL function catches every exception of the download itself, so `Persist.DownloadItem` never raises. The branch is reached only when printing or logging raises: the first log call runs outside the `try`, and the handler logs too. A console that cannot encode the emoji is such a case. Printing and logging are left out, so the model never takes this branch.
- **Time.** `time.time` and elapsed-time reporting are left out. `time.sleep` is recorded as the ghost sequence of requested delays. Its OverflowError for a delay too large for the platform's timer is not modelled; only the ValueError of a negative delay is.
- **Filename collisions.** Nothing prevents them: `Persist.SafeTitleCollision` exhibits two titles that share one file name, and the later file overwrites the earlier one.
- **Character classes.**
  - `str.isalnum` is restricted to ASCII letters and digits.
  - Whitespace for `strip` and `split` is Python's `str.isspace` set, written out.
- Validation.Checked: NaN and None. pandas' NaN and None are both `Null`. pandas stores an absent key as NaN, which `validate_columns` would turn into the text `"nan"` in a `str` column. The model leaves every missing cell alone.
- Frames.ZeroIfMissing: dtypes. Float columns are not modelled. In pandas, a count column with a gap is already float64 when the frame is built, and `fillna(0)` keeps it float. The same holds for a `year_uploaded` column with a gap. `validate_columns` computes `int(2.0) == 2`, but writing that value back with `df.at` stores `2.0` in the float column again, so the source's combined table keeps float counts. The model keeps `Int` cells throughout. So `Consolidation.CombinedCells`' claim that every cell is missing or of its declared type holds in the model but not for such columns in the source.
- Extraction.YearUploaded: integer literals. Python's `int()` also accepts `_` between digits and non-ASCII decimal digits, which `Text.ParseInt` rejects. For example, `"1_2345678"` gives the year 123 in Python but a ValueError in the model, so that attempt fails.
- Persist.Message: error texts. The texts of the modelled exceptions follow Python's wording. The exception is a failed write, whose text depends on the operating system's error, so the model reports only the file name.
- Dates.ToDatetime: date parsing. Only eight-digit `YYYYMMDD` strings and integers that print as such are parsed. The other spellings pandas' parser may accept are read as missing.
- Validation.Convert: four conversions differ from Python's.
  - `pd.Timestamp(int)`, which is nanoseconds since the epoch, is modelled as a failed conversion. This case cannot arise after cleaning, because every date cell is then a date or missing.
  - `int()` of strings with `_` separators is modelled as a failure.
  - `str()` of a list element that contains a quote is not escaped.
  - `pd.Timestamp(str)` also parses other date spellings, such as `"2023-01-15"`. The model converts only eight-digit `YYYYMMDD` strings and gives no date for any other string. This case cannot arise after cleaning, because every date cell is then a date or missing.
- ConsolidationLegacy.CleanDataLegacy: the year column. `year_uploaded` is recomputed from the parsed date's integer year. The source's float years (present when some date is missing) are not distinguished.
- Consolidation.CleanData: two errors of the title step are simplified.
  - The `.str` accessor raises AttributeError when no title is text. This case is not modelled; such titles give a missing legible title.
  - The KeyError `split_titles[0]` raises on an empty frame is modelled as `KeyError("0")`.
- Consolidation.CleanData: column errors. pandas' `dropna(subset=...)` raises a KeyError whose argument is the list of absent labels (for example `KeyError(['id'])`). The model raises `KeyError("id")` for the first absent column only.
- ConsolidationLegacy.CleanDataLegacy: column errors. The same simplification of `dropna`'s KeyError applies here.
- **JSON parsing.** Duplicate JSON keys and the object-versus-list detail beyond `isinstance(data, list)` are not modelled.
- **Other code.** `main.py` only wires the steps together, and commented-out code does not run. The `processing/config` module is not part of this model; its directory names only choose file paths.

## Findings

| source | as written | input that shows it | evidently intended | confidence | as-written member | corrected member |
|---|---|---|---|---|---|---|
| serial_processing.py:48-53 | `download_serial` reassigns `successful, failed` on every iteration and prints them after the loop | two URLs that both download report `Successful: 1`; an empty URL list raises UnboundLocalError (a NameError) for `successful` | add each URL's pair to running totals, as processing/serial_processing.py:88-93 does | high (not executed) | SerialLegacy.DownloadSerialAsWritten, SerialLegacy.LastPairUndercounts | SerialLegacy.DownloadSerialTotals |
