# Google Photos Takeout organizer — a verified model of its core

Google Photos Takeout exports a photo library as a tree of media files, each
usually accompanied by a JSON sidecar holding the time the photo was taken.
The organizer walks such a tree. For every media file it works out a date,
then copies the file into `output/<year>/<MM>/<DD>/`, or into an "unknown"
folder when no date can be found. A file already at the destination with the
same length is skipped, and one with a different length is overwritten. The
run ends with a tally. A gallery generator later reads the
`year/month/day` layout back out of the output tree.

This project models that core in Dafny and proves its properties:

- `wrappers.dfy`: `Option` (with Rust's `or_else`) and `Result`.
- `strings.dfy`: ASCII digits and decimal rendering (`{}` and `{:02}`), ASCII case folding, and `str::trim`.
- `paths.dfy`: Rust's `Path` operations on a sequence of components: `file_name`, `extension`, `with_extension`, `set_file_name` and `strip_prefix`.
- `calendar.dfy`: the proleptic Gregorian calendar, with days-from-civil and civil-from-days proved to be inverse bijections.
- `date_utils.rs` → `date_utils.dfy`:
  - `naive_to_utc`, with its noon anchor;
  - `timestamp_string_to_date`, an `i64` parse followed by epoch-to-UTC conversion.
- `organizer/model.rs` → `model.dfy`: the sidecar record, and its decoding from JSON as the derived deserializer performs it.
- `metadata.rs` → `metadata.dfy`:
  - the two sidecar candidates;
  - the sidecar date;
  - the EXIF tag priority and the two EXIF formats;
  - the two filename scanners;
  - the date cascade `determine_date`.
- `fs_ops.rs` → `fs_ops.dfy`:
  - eligibility (`should_process_file`);
  - `process_file` over a file system of path → bytes plus a set of directories, as a pure specification;
  - a `FileSystem` class whose `CreateDirAll` and `ProcessFile` methods update the maps in place and are proved against that specification.
- `main.rs`, `organizer/mod.rs` → `walker.dfy`:
  - `organize_files` as a loop over the walked entries, proved against a fold over them;
  - the counters and the list of new files;
  - incremental-run detection;
  - `get_total_files`.

  The two source files hold the same code, and one model serves both.
- `html/utils.rs` → `html_utils.dfy`:
  - `is_image`;
  - `get_date_from_path`, including the round trip with the destination layout of `process_file`.

The file system, the sidecar files and the EXIF blocks are inputs of the model:
- The walk is a sequence of entries.
- Sidecar contents are given per path: missing, unreadable, malformed JSON, or a parsed JSON value.
- EXIF is given as the three optional tag strings.
- `denied` is the set of paths at which the operating system refuses to create a directory or write a file.

The lemmas for the source's unit tests write each test name as a concatenation of
short pieces, such as `"photo" + "." + "jpg"` or `"IMG_" + "2023" + "05" + "20" + "_120000.jpg"`.
The string is the same; the pieces make plain where the extension or each date group sits.

## Model

| member | source | states |
|---|---|---|
| Strings.IntToString | src/fs_ops.rs:33-34 | `{}` on the year: all digits exactly when non-negative, otherwise '-' followed by the digits of the magnitude |
| Strings.Pad2 | src/fs_ops.rs:33-36 | `{:02}` on month and day: exactly two digits that read back as the value |
| Strings.Trim | src/metadata.rs:92 | the trimmed text is an infix of the input, preceded and followed only by whitespace, and neither starts nor ends with whitespace |
| Strings.TrimPadded | src/metadata.rs:91-92 | trimming a word padded with whitespace on both sides gives back exactly the word |
| Paths.NameExtensionSpec | src/fs_ops.rs:12-13 | the extension is absent exactly when no dot follows the first character; when it is present it has no dot, follows the last one, and stem + "." + extension is the name |
| Paths.WithFileNameSpec | src/metadata.rs:26-30 | after `set_file_name(name)`, `file_name()` is `name` (for any name but `..`), and the components before it are the parent of the original path: the original without its file name, or all of it when it had none |
| Paths.WithExtensionSpec | src/metadata.rs:32 | after `with_extension(ext)` on a path with a file name, for a non-empty dot-free `ext`, `extension()` is `ext`, the file stem is the original stem, and the directory components are unchanged |
| Paths.StripPrefix | src/html/utils.rs:17 | succeeds exactly when the root is a component-wise prefix, and root + remainder is the path |
| Calendar.CivilFromDaysCorrect | src/date_utils.rs:13 | every day count gives a valid calendar date that maps back to the same day count |
| Calendar.DaysFromCivilCorrect | src/date_utils.rs:13 | every valid date maps to a day count that gives back the same date |
| Calendar.CivilFromDaysSucc | src/date_utils.rs:13 | the day after day z is the calendar successor of z's date |
| Calendar.DaysOfNextDay | src/date_utils.rs:13 | the calendar successor of a valid date is valid and one day later |
| Calendar.EpochIsDayZero | src/date_utils.rs:13 | 1970-01-01 is day 0 |
| DateUtils.NaiveToUtc | src/date_utils.rs:3-9 | Some exactly for a valid Gregorian date in chrono's year range; the result carries that date at 12:00:00 |
| DateUtils.NaiveToUtcInstant | src/date_utils.rs:3-9 | the result is noon of the date's day, 43200 seconds after its midnight, and converting that instant back gives the same value |
| DateUtils.AccumulateSpec | src/date_utils.rs:12 | on a digit string, the digit loop of `str::parse::<i64>` gives the signed decimal value of the digits read so far when it lies in the i64 range, and fails otherwise |
| DateUtils.ParseI64 | src/date_utils.rs:12 | Some exactly for an optional sign followed by one or more ASCII digits whose value lies in the i64 range, and then the value is that number |
| DateUtils.ParseI64RoundTrip | src/date_utils.rs:12 | every i64 parses back from its decimal text |
| DateUtils.ParseI64RejectsEmpty | src/date_utils.rs:12 | the empty string and a lone sign are rejected |
| DateUtils.ParseI64RejectsNonDigits | src/date_utils.rs:12 | surrounding whitespace and a fraction are rejected |
| DateUtils.ParseI64Signs | src/date_utils.rs:12 | a leading '+' or '-' is accepted |
| DateUtils.FromTimestampCorrect | src/date_utils.rs:13 | `from_timestamp` is Some exactly when the year is in chrono's range; the result is valid and is exactly `secs` seconds after the epoch |
| DateUtils.FromTimestampUnique | src/date_utils.rs:13 | every valid date-time is the conversion of its own instant |
| DateUtils.FromTimestampNextDay | src/date_utils.rs:13 | adding 86400 seconds advances the date by one calendar day and keeps the time of day |
| DateUtils.FromTimestampEpoch | src/date_utils.rs:13 | 0 is 1970-01-01 00:00:00 |
| DateUtils.FromTimestampBeforeEpoch | src/date_utils.rs:13 | -1 is 1969-12-31 23:59:59: negative instants give dates before 1970 |
| DateUtils.TimestampStringToDate | src/date_utils.rs:11-14 | None for text that is not an i64; when Some, the result is valid and its instant is the parsed number of seconds |
| DateUtils.TimestampStringOfEpoch | src/date_utils.rs:11-14 | "0" gives 1970-01-01 00:00:00 |
| DateUtils.TimestampStringRoundTrip | src/date_utils.rs:11-14 | the decimal text of any valid date-time's instant converts back to that date-time |
| Model.DecodeTimestampRoundTrip | src/organizer/model.rs:3-6 | decoding inverts encoding for a timestamp, and `null` decodes as an absent optional |
| Model.DecodeMetadataRoundTrip | src/organizer/model.rs:8-13 | decoding inverts both the canonical encoding (with null fields) and the sparse one (absent keys) |
| Model.DecodeObjectSpec | src/organizer/model.rs:10-13 | an object decodes exactly when each known key that is present holds null or a timestamp; a field is present exactly when its key is present and not null |
| Model.DecodeIgnoresOtherKeys | src/organizer/model.rs:8-13 | adding any key other than the two field names does not change the result |
| Model.DecodeTimestampIgnoresOtherKeys | src/organizer/model.rs:3-6 | keys other than `timestamp` inside a timestamp object are ignored |
| Model.SnakeCaseKeysIgnored | src/organizer/model.rs:9 | the snake_case spelling `photo_taken_time` is not recognised, so both fields come out absent |
| Model.TimestampMustBeString | src/organizer/model.rs:4-6 | a numeric timestamp, or a timestamp object without `timestamp`, makes the whole document fail |
| Model.DecodeMetadataShape | src/organizer/model.rs:8-13 | only an object or a two-element array decodes; arrays of other lengths fail |
| Metadata.SidecarCandidates | src/metadata.rs:26-32 | the first candidate is `<file name>.json` and the second is the stem with the extension `json`, both in the same directory; a path without a file name is tried as it is |
| Metadata.SidecarCandidatesNoExtension | src/metadata.rs:26-32 | for a name without an extension both candidates are `<name>.json` |
| Metadata.SidecarCandidatesExample | src/metadata.rs:26-32 | `IMG_1.jpg` looks for `IMG_1.jpg.json`, then `IMG_1.json` |
| Metadata.ParseJsonDate | src/metadata.rs:56-76 | a date comes only from a present sidecar that decodes, and it is valid |
| Metadata.ParseJsonDateSpec | src/metadata.rs:56-76 | for every decodable sidecar, a present `photoTakenTime` decides the result: it is that timestamp's conversion whether or not it succeeds; otherwise the result is the conversion of `creationTime`, or None without it; a Some result carries the deciding field's parsed instant; missing, unreadable or undecodable sidecars give None |
| Metadata.TakenTimeDecides | src/metadata.rs:67-69 | an invalid `photoTakenTime` yields None even when `creationTime` is valid, with no fallback |
| Metadata.ParseJsonDateRoundTrip | src/metadata.rs:67-73 | a sidecar whose deciding timestamp is the decimal instant of a date-time yields that date-time |
| Metadata.ParseExifDateTime | src/metadata.rs:94-102 | a parse succeeds only on the 19-character `YYYY?MM?DD HH:MM:SS` layout with the given date separator and gives a valid date-time in years 0..9999 |
| Metadata.ExifRoundTrip | src/metadata.rs:94-102 | formatting a date-time in either layout and parsing it back gives the date-time |
| Metadata.ExifRoundTripText | src/metadata.rs:94-102 | a successfully parsed text is exactly the formatting of its result |
| Metadata.ExifLayoutsDisjoint | src/metadata.rs:94-102 | no text parses in both layouts, so the order of the two attempts only matters for failure |
| Metadata.GetExifDate | src/metadata.rs:85-105 | a date comes only from EXIF data with a present date tag, and it is valid |
| Metadata.ExifFirstTagDecides | src/metadata.rs:85-90 | the first tag present, in the order DateTimeOriginal, DateTimeDigitized, DateTime, decides the result alone: it equals the result for that tag's text with the other two tags absent |
| Metadata.DigitizedNotRescued | src/metadata.rs:86-89 | when DateTimeOriginal is absent and DateTimeDigitized does not parse, a DateTime that would parse is not used: the result is None |
| Metadata.ExifPaddedRoundTrip | src/metadata.rs:91-102 | a tag holding a formatted date-time surrounded by whitespace yields that date-time, in the ':' layout and in the '-' layout |
| Metadata.StdMatchSpec | src/metadata.rs:20 | the standard scanner matches at a position exactly when four digits, an optional '-' or '_', two digits, an optional separator and two digits start there, and it captures those digit groups |
| Metadata.DmyMatchSpec | src/metadata.rs:21 | the day-month-year scanner matches at a position exactly when eight digits start there |
| Metadata.CapturesAreDigits | src/metadata.rs:20-21 | every capture holds ASCII digits of width 4, 2 and 2 |
| Metadata.Leftmost | src/metadata.rs:111 | the scan returns the first position with a match and its captures, or None when no position matches |
| Metadata.CapturesDate | src/metadata.rs:112-118 | Some exactly when 1990 < year < 2030 and the date is valid, and then it is that date at 12:00:00 |
| Metadata.ParseFilenameDate | src/metadata.rs:108-136 | a filename date needs a file name, is valid, has 1990 < year < 2030 and is at 12:00:00 |
| Metadata.ParseFilenameDateSpec | src/metadata.rs:108-136 | only the last component is scanned; the leftmost standard match decides when it gives a date, otherwise the leftmost day-month-year match decides |
| Metadata.CompactNameMatch | src/metadata.rs:20 | in `IMG_20230520_120000.jpg` the leftmost standard match is at position 4 and captures 2023, 05 and 20 |
| Metadata.FilenameDateStdCompact | src/metadata.rs:144-153 | `IMG_20230520_120000.jpg` gives 2023-05-20 |
| Metadata.DashedNameMatch | src/metadata.rs:20 | in `2022-12-01.jpg` the standard match at position 0 takes both separators and captures 2022, 12 and 01 |
| Metadata.FilenameDateStdDashed | src/metadata.rs:154-158 | `2022-12-01.jpg` gives 2022-12-01 |
| Metadata.WhatsAppNameMatches | src/metadata.rs:122-133 | in `IMG-25102023-WA0001.jpg` the leftmost standard match reads year 2510 and is rejected, and the day-month-year match at the same position reads 25-10-2023 |
| Metadata.FilenameDateDmy | src/metadata.rs:161-171 | `IMG-25102023-WA0001.jpg` gives 2023-10-25 |
| Metadata.FilenameDateNone | src/metadata.rs:173-178 | `random_image.jpg` gives None |
| Metadata.DetermineDate | src/metadata.rs:25-54 | every date the cascade returns is valid |
| Metadata.DetermineDatePrecedence | src/metadata.rs:35-53 | the first sidecar wins, then the second, then EXIF, then the filename, each consulted only when everything before it yields nothing |
| Metadata.SidecarOverridesExif | src/metadata.rs:35-46 | when either sidecar yields a date, EXIF has no influence on the result |
| Metadata.DetermineDateReadsOnlyCandidates | src/metadata.rs:26-40 | only the two candidate sidecar paths are read |
| Metadata.DetermineDateNone | src/metadata.rs:35-53 | the result is None exactly when both sidecars, EXIF and the filename all yield nothing |
| FsOps.ShouldProcessFileSpec | src/fs_ops.rs:7-23 | a path is eligible exactly when it is not a directory and its name has a dot after the first character whose following text is non-empty and not "json" in any letter case |
| FsOps.ShouldProcessFileIgnoresCase | src/fs_ops.rs:12-20 | any letter case of `json` is rejected |
| Paths.ExtensionOfJoin | src/fs_ops.rs:12-13 | the extension of `stem.ext`, for a non-empty stem and a dot-free `ext`, is `ext` |
| FsOps.ShouldProcessJoined | src/fs_ops.rs:7-20 | a file `stem.ext` with a dot-free `ext` is eligible exactly when `ext` is non-empty and not `json` in any letter case |
| FsOps.ShouldProcessAcceptsPhoto | src/fs_ops.rs:91 | `photo.jpg` is accepted |
| FsOps.ShouldProcessAcceptsVideo | src/fs_ops.rs:92 | `video.mp4` is accepted |
| FsOps.ShouldProcessAcceptsUpperCase | src/fs_ops.rs:93 | `IMAGE.PNG` is accepted |
| FsOps.ShouldProcessRejectsJson | src/fs_ops.rs:7-20 | `metadata.json` is rejected, and so is any directory |
| FsOps.ShouldProcessRejectsNoExtension | src/fs_ops.rs:97-98 | `no_extension` and `.hidden` are rejected |
| FsOps.MkdirsFromSpec | src/fs_ops.rs:47 | `create_dir_all` never touches a file and only adds ancestors of the target; it succeeds exactly when every ancestor is a directory or can be created, and then every ancestor is a directory |
| FsOps.MkdirsFromExisting | src/fs_ops.rs:47 | creating an existing directory tree succeeds and changes nothing |
| FsOps.DestFolder | src/fs_ops.rs:31-45 | a dated file goes to output/year/MM/DD, with the year in plain decimal and the month and day as two digits; an undated file goes to output/unknown |
| FsOps.ProcessFileFrame | src/fs_ops.rs:47-82 | directories only grow, and only by ancestors of the destination folder; without a write all files are unchanged; a write changes exactly the destination file, which receives the source bytes |
| FsOps.ProcessFileDirFailure | src/fs_ops.rs:47 | when the destination folder cannot be created, the result is that error and no file changes |
| FsOps.SyncIntoOutcomes | src/fs_ops.rs:52-79 | New exactly when the destination was absent and the copy succeeded; Updated exactly when it was a file of a different length and the copy succeeded; Skipped exactly when it was a file of the same length |
| FsOps.SkippedKeepsDifferentContent | src/fs_ops.rs:62-68 | a destination of the same length is left alone even when its content differs |
| FsOps.ProcessFileIdempotent | src/fs_ops.rs:25-83 | after any successful sync, syncing again with an unchanged source changes nothing and reports Skipped |
| FsOps.ProcessFileNewThenSkipped | src/fs_ops.rs:52-79 | with an unchanged source, the first call copies (New) and the second skips |
| FsOps.ProcessFileChangeDetection | src/fs_ops.rs:56-61 | over an existing destination file, a different length is reported Updated and the destination, and no other file, receives the source bytes; an equal length is reported Skipped and no file changes |
| FsOps.ProcessFileNoName | src/fs_ops.rs:49-82 | an input without a file name is reported skipped, with only the folder creation taking effect |
| FsOps.AsWrittenLosesAction | src/fs_ops.rs:25-30 | the `Result<bool>` of the signature gives the same answer for a first copy and for an overwrite |
| FsOps.FileSystem.CreateDirAll | src/fs_ops.rs:47 | the loop creates the missing ancestors in order and leaves exactly the state and the answer of the `create_dir_all` specification |
| FsOps.FileSystem.ProcessFile | src/fs_ops.rs:25-83 | the new file system and the outcome are those of the `process_file` specification: folder creation, then copy, overwrite or skip |
| Walker.EligibleEntries | src/main.rs:148-154 | the counting pass keeps an entry exactly when it was walked and is eligible, keeps no more entries than were walked, and keeps only eligible ones |
| Walker.TallyCounts | src/main.rs:103-123 | success counts New and Updated, skipped counts Skipped and errors counts failures; the three sum to the number of records, progress equals it, and new files number at most the New outcomes |
| Walker.TallyAppend | src/main.rs:94-124 | the counters of two consecutive stretches add up, and their new-file lists concatenate in order |
| Walker.TallyStep | src/main.rs:103-123 | one more record applies the match arms of the loop body to the counters |
| Walker.TallySingle | src/main.rs:103-123 | a single record contributes exactly its own arm |
| Walker.TallyNewFile | src/main.rs:105-113 | only a New outcome appends a name, at the end, and Updated appends nothing |
| Walker.TallyNamedNewFiles | src/main.rs:105-110 | when every record has a name, the new-file list has exactly one name per New outcome |
| Walker.EligibleHasName | src/main.rs:106-109 | an eligible entry always has a file name to list |
| Walker.OrganizeRecordsEligible | src/organizer/mod.rs:95-101 | the processing pass leaves one record per entry counted by `get_total_files`, and each names its entry |
| Walker.OrganizeAppend | src/main.rs:118-121 | the run over two stretches is the run over the second started from the state the first left, so a failure never stops the walk |
| Walker.OrganizePrefixStep | src/main.rs:94-124 | one more walked entry is one more step of the run |
| Walker.OrganizeIgnoresIneligible | src/main.rs:97-99 | dropping the ineligible entries changes neither the final state nor the records |
| Walker.OrganizeTotals | src/main.rs:83-123 | success + skipped + errors and progress equal the total from the counting pass, and the new-file list has one name per New outcome, never more than success |
| Walker.IncrementalPreserved | src/main.rs:77-80 | an output that has entries keeps them while directories and file names only grow |
| Walker.WrittenOutputIsIncremental | src/main.rs:77-80 | a sync that writes its destination leaves the output existing and non-empty |
| Walker.StepGrows | src/main.rs:101-103 | one step never removes a directory or a file name |
| Walker.RunMakesIncremental | src/main.rs:77-80 | after a run with at least one success, the next run over the same output is incremental |
| Walker.SidecarsNotEligible | src/main.rs:97-99 | neither sidecar candidate of a path is ever processed as a media file |
| Walker.JsonSuffixNotEligible | src/fs_ops.rs:18-20 | a name ending in `.json` is never eligible |
| Walker.SyncEntry | src/main.rs:101-103 | resolving the date and syncing one eligible entry gives the state and the single record of one step |
| Walker.OrganizeFiles | src/main.rs:70-146 | the incremental flag is decided on the state before any copy; the total is the counting pass; the final file system and the counters are those of the fold over the walk (the identical loop of src/organizer/mod.rs:16-93 is the same method) |
| HtmlUtils.ImageIsProcessed | src/html/utils.rs:3-14 | every image is a file the organizer processes |
| HtmlUtils.IsImageJoined | src/html/utils.rs:3-14 | a file `stem.ext` with a dot-free `ext` is an image exactly when its lower-cased `ext` is one of the nine listed |
| HtmlUtils.IsImagePhoto | src/html/utils.rs:44 | `photo.jpg` is an image |
| HtmlUtils.IsImagePhotoUpperCase | src/html/utils.rs:45 | `photo.JPG` is an image |
| HtmlUtils.IsImagePng | src/html/utils.rs:46 | `image.png` is an image |
| HtmlUtils.IsImageHeic | src/html/utils.rs:47 | `image.heic` is an image |
| HtmlUtils.IsImageRejectsVideo | src/html/utils.rs:49 | `video.mp4` is not an image |
| HtmlUtils.IsImageRejectsText | src/html/utils.rs:50 | `text.txt` is not an image |
| HtmlUtils.IsImageRejectsNoExtension | src/html/utils.rs:51 | `no_ext` is not an image |
| HtmlUtils.GetDateFromPath | src/html/utils.rs:16-36 | a label exists exactly when the path is under the root, has at least four more components, and the first three are numeric; the label is those three components copied verbatim and joined by '-' |
| HtmlUtils.DateOfDestination | src/html/utils.rs:22-33 | a file placed by `process_file` for a date in year 0 or later reads back as `<year>-<MM>-<DD>` of that date |
| HtmlUtils.NegativeYearHasNoLabel | src/html/utils.rs:28-31 | a file placed for a year before 0 reads back as None, because of the sign |
| HtmlUtils.UnknownBucketHasNoLabel | src/html/utils.rs:22 | a file in an unknown folder of fewer than three levels, or one whose first level is not numeric, reads back as None |
| HtmlUtils.DayLabelShape | src/html/utils.rs:32 | the label is the year digits, '-', two digits of month, '-', two digits of day |
| HtmlUtils.DayLabelInjective | src/html/utils.rs:32 | different days get different labels, so the gallery never merges two days |
| HtmlUtils.GetDateFromPathExamples | src/html/utils.rs:55-87 | the paths of the module's tests give `2023-05-20` (also with deeper nesting) or None (too short, non-numeric, mixed, outside the root) |

## Left out

- Unicode: the regex class `\d`, `char::is_numeric` and `to_lowercase` are Unicode-aware in the source. The model uses ASCII digits and ASCII case folding, and `trim` removes ASCII whitespace only.
- chrono's `%Y`, `%m` and related specifiers also accept fewer digits and a signed year. The EXIF parse is modelled as the fixed 19-character layout, with seconds 0..59. chrono also accepts a leap second `:60`, which the model rejects.
- Names that are not valid UTF-8 (`to_str` fails) are not modelled: every name is a string.
- Reading JSON text (`serde_json::from_reader`) is not modelled: the sidecar is given as a parsed JSON value, or as missing or unreadable. Duplicate keys and floating-point numbers are outside that value.
- Reading EXIF containers (`read_from_container`, `display_value`) is not modelled: the three tag strings are inputs.
- `DateExtractor::new` is not modelled as failing: its two regexes are constant and valid.
- The directory walk (`WalkDir`) is a sequence of readable entries, with `is_dir` given per entry. Its order and its unreadable entries are not modelled.
- Sidecar files are read from the input tree, which the model takes as a fixed function of path. It is not tied to the mutable file system that the run writes to.
- Logging, the progress bar and the final summary printout are not modelled. The run's counters and new-file list are modelled, and so is the flag that selects the summary.
- `main()` and its command-line parsing are not modelled. The `u64` cast of the total is an unbounded `nat`.
- FsOps.SyncInto: a directory occupying the destination name is always an error. The source compares the directory's metadata length first and skips when it happens to equal the source length.
- FsOps.DestFolder: when `unknown_dir` is an absolute path, `Path::join` replaces the output path. The model always places the bucket under the output.
- I/O failures other than those the `denied` set describes are not modelled. Examples are a full disk, concurrent changes and partial copies. A missing source counts as unreadable.
- Only file contents are copied: permissions and timestamps are not modelled.
- The gallery and HTML builders, thumbnail and video handling through ffmpeg, browser scripts, and the logger are not part of this model.

## Findings

| source | as written | input that shows it | evidently intended | confidence | as-written member | corrected member |
|---|---|---|---|---|---|---|
| src/fs_ops.rs:25-83 | `process_file` returns `Result<bool>`: `true` for a first copy and for an overwrite alike. Meanwhile main.rs:15 imports `FileAction` from this module, and main.rs:104-117 and organizer/mod.rs:51-64 match on `New`, `Updated` and `Skipped`. This is a mismatch of types between versions of the files: main.rs cannot compile against src/fs_ops.rs as it stands, and organizer/mod.rs:13 imports its `fs_ops` from src/organizer/fs_ops.rs, which is not part of this model. It is not a loss of information observed at run time. | An output holding no file with the input's name, and one holding a shorter stale copy: both give `Ok(true)`, so the caller cannot tell New from Updated | `process_file` reports the three-way `FileAction` that its callers match on | not executed | FsOps.AsWrittenLosesAction | FsOps.FileSystem.ProcessFile |
