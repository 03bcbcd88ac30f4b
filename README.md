# photos-date: a verified model of the two date-repair scripts

The repository holds two batch scripts that work on the JPEG photos of one
directory.

- The **auditor** (`photos-date-check.py`) finds a date in each file name
  (`YYYYMMDD`, `YYYY-MM-DD`, `YYYY_MM_DD` and mixtures), checks that it is a
  real date between 1980 and the current year, and reads the EXIF
  `datetime_original` tag. It reports the file as OK, MISMATCH, NO DATE or
  ERROR, or SKIPPED for a PNG. With `--fix` it writes the filename date into
  the tag (FIXED, or ERR-FIX when the write fails). With `--extensive` it
  compares the whole date instead of the year alone.
- The **resetter** (`reset-invalid-dates.py`) reports every JPEG whose
  capture-time year is before 1980 (WOULD RESET). With `--execute` it deletes
  that tag (RESET DONE). Any failure for one file is swallowed without a row.

The model replaces the I/O with abstract inputs. The directory listing is a
sequence of entries. A decoded photo is a tag map with a `has_exif` flag. The
directory is a `Disk` object: a map from file name to photo (a name missing
from it does not open or decode) and a set of names whose write-back
succeeds. The current year is a parameter.

Each script's loop is an imperative method over the `Disk`. Each method is
proved against a specification function: `Audit.AuditFile`/`Audit.Run` and
`Reset.ResetFile`/`Reset.Run`. The lemmas state the scripts' rules about
those functions: classification, leftmost-match search, the calendar check,
status override order, "only this tag changes", the fix round trip and
idempotence, and how the two scripts interact.

Files: `wrappers.dfy` (Option), `strings.dfy` (the Python string operations
used), `calendar.dfy` (`is_valid_date`), `date_pattern.dfy` (the filename
regular expression, run by a small engine over its items), `photos.dfy` (the EXIF tag map and the directory),
`audit.dfy` and `audit_laws.dfy` (the auditor), `reset.dfy` and
`reset_laws.dfy` (the resetter), `interplay.dfy` (both scripts on one
directory).

## Model

| member | source | states |
|---|---|---|
| Strings.Split | photos-date-check.py:67-68 | `str.split(sep)` returns at least one piece, no piece contains the separator, and joining the pieces with the separator gives back the string |
| Strings.SplitJoin | photos-date-check.py:67-68 | splitting is the only way to cut a string into separator-free pieces that join back to it: `split(join(parts)) == parts` |
| Strings.FirstField | reset-invalid-dates.py:22 | `s.split(sep)[0]` is the prefix of `s` before the first separator (all of `s` when there is none) and holds no separator |
| Strings.FirstFieldOf | photos-date-check.py:67 | the text before the first separator of `x + sep + t` is `x` when `x` has no separator |
| Strings.LessIrreflexive | photos-date-check.py:80-84 | no string is `<` itself under Python string order |
| Strings.LessTransitive | photos-date-check.py:80-84 | Python string order is transitive |
| Strings.LessTotal | photos-date-check.py:80-84 | two different strings are ordered one way or the other |
| Strings.LessDigits | photos-date-check.py:80-84 | on zero-padded digit runs of one width, string order is numeric order |
| Strings.DigitsValueBound | photos-date-check.py:14 | `int()` of n digits is below 10^n |
| Strings.ParseInt | reset-invalid-dates.py:22 | `int()` succeeds exactly on a non-empty ASCII digit run, optionally after one `+` or `-`, and gives its decimal value with that sign; anything else raises |
| Strings.Lower | photos-date-check.py:35 | `lower()` keeps the length and lower-cases each character |
| Calendar.DaysInMonth | photos-date-check.py:14 | a month has 28 to 31 days, and 29 exactly for February of a Gregorian leap year |
| Calendar.YearLength | photos-date-check.py:14 | the twelve month lengths add up to 366 in a leap year and 365 otherwise |
| Calendar.ValidDateFields | photos-date-check.py:10-20 | `is_valid_date` holds exactly when 1 ≤ m ≤ 12, 1 ≤ d ≤ the month's length under the leap rule, and 1980 ≤ y ≤ current year (and y ≤ 9999) |
| Calendar.ValidDateRejects | photos-date-check.py:10-20 | month 13, day 32, Feb 29 of 2023 and 1900, Feb 30, day or month 0, 1979 and current year + 1 are rejected |
| Calendar.ValidDateAccepts | photos-date-check.py:10-20 | Feb 29 of 2000 and 2024, 1 Jan 1980 and a year equal to the current year are accepted |
| DatePattern.PieceSound | photos-date-check.py:8 | a piece the engine takes for `\d{n}` or `[-_]?` fits that item and is the text found at that position |
| DatePattern.MatchItemsSound | photos-date-check.py:8 | what the engine finds at a position is a list of pieces, one per pattern item, each fitting its item, that together are the text starting there |
| DatePattern.MatchItemsComplete | photos-date-check.py:8 | any division of the text at a position into pieces that fit the items is the one the engine finds, when every optional separator is followed by digits (so a greedy separator never has to be given back) |
| DatePattern.PartsFit | photos-date-check.py:8 | a match's five pieces fit `\d{4}`, `[-_]?`, `\d{2}`, `[-_]?`, `\d{2}` exactly when the match is well formed |
| DatePattern.MatchAt | photos-date-check.py:8 | a match found at a position is a well-formed match of the pattern spelled out there |
| DatePattern.MatchAtComplete | photos-date-check.py:8 | every match the pattern admits at a position is the one `MatchAt` finds, so each position has at most one match |
| DatePattern.MatchStartsWithYear | photos-date-check.py:8 | a match starts with its four year digits |
| DatePattern.Search | photos-date-check.py:44 | `search` returns the leftmost position with a match and that match, or reports that no position matches |
| DatePattern.FindDate | photos-date-check.py:44-49 | a found date has four year digits, two month digits, two day digits and optional `-`/`_` separators |
| DatePattern.FindDateIsLeftmost | photos-date-check.py:44-49 | when a match starts at k and none starts further left, that match is the filename date |
| DatePattern.FindDateSound | photos-date-check.py:44-49 | a found date matches at some position and no match starts further left |
| DatePattern.FindDateNone | photos-date-check.py:44-45 | no date is found exactly when the pattern matches nowhere |
| DatePattern.FindDateExample | photos-date-check.py:44-49 | `IMG_20230115_received_9999999.jpg` yields 2023, 01, 15 |
| Photos.GetTag | photos-date-check.py:61-65 | the tag is read exactly when the photo has EXIF and lists the tag, and its value is returned |
| Photos.SetTag | photos-date-check.py:98 | after the assignment the photo carries EXIF, the tag reads the value and every other tag reads as it did; a photo without EXIF gets a segment holding that tag alone |
| Photos.DeleteTag | reset-invalid-dates.py:30 | after `del` the tag is gone, EXIF presence is kept and every other tag is unchanged |
| Photos.PngIsNotJpeg | photos-date-check.py:35-41 | no name passes both the `.png` test and the `.jpg`/`.jpeg` test |
| Photos.Load | photos-date-check.py:58-59 | opening yields a photo exactly for the names that decode, and that photo is the one stored under the name |
| Photos.Apply | photos-date-check.py:99-100 | writing a photo back replaces that file only; without a write the directory is unchanged |
| Photos.Disk.Open | photos-date-check.py:58-59 | opening an entry gives the decoded photo or the failure, and changes nothing |
| Photos.Disk.Save | photos-date-check.py:99-100 | the write succeeds exactly for writable names, replaces that file, and leaves the directory unchanged when it fails |
| Audit.ReadMeta | photos-date-check.py:57-72 | a file that does not decode gives the error case; no EXIF or no capture-time tag gives the missing case; otherwise the read succeeds iff the tag's part before the first space splits on `:` into exactly three fields, and then shows that part with those three fields |
| Audit.Verdict | photos-date-check.py:75-94 | before any fix the status is OK, MISMATCH or NO DATE |
| Audit.CheckFile | photos-date-check.py:27-54 | one loop iteration returns the row of `AuditFile` and leaves the directory as `AuditFile` says |
| Audit.CheckDatedFile | photos-date-check.py:56-109 | the metadata step, the step-by-step `mismatch`/`no_date`/`status` assignments and the fix give the row and the directory of `AuditDated` |
| Audit.ProcessImages | photos-date-check.py:22-110 | the output is the header, a 95-dash rule and the rows of `Run` in listing order; the directory ends as `Run` leaves it |
| AuditLaws.DirectoryIsIgnored | photos-date-check.py:30-32 | a directory gives no row and no write |
| AuditLaws.PngIsSkipped | photos-date-check.py:34-37 | a `.png` name in any case gives a SKIPPED row whatever the flags and contents, and no write |
| AuditLaws.OtherIsIgnored | photos-date-check.py:39-41 | a name that is neither PNG nor JPEG gives no row and no write |
| AuditLaws.NoDateInName | photos-date-check.py:44-47 | a JPEG whose name matches nowhere gives a NO DATE row with "N/A" and no write |
| AuditLaws.UsesLeftmostDate | photos-date-check.py:44-54 | the row shows the leftmost match; when that match is not a valid date there is no row, even if a later match would be valid |
| AuditLaws.InvalidDateIsIgnored | photos-date-check.py:52-54 | an invalid filename date gives no row and no write, whatever the file holds |
| AuditLaws.DatedFile | photos-date-check.py:44-57 | a JPEG whose leftmost filename date is valid goes on to the metadata steps |
| AuditLaws.AuditFileCases | photos-date-check.py:27-57 | an entry either gets no write and at most a SKIPPED or NO DATE row, or goes through the metadata steps with its leftmost valid filename date |
| AuditLaws.ErrorRow | photos-date-check.py:57-72 | ERROR with "Could not read EXIF" exactly when the file does not decode or the date part does not split into three fields; nothing is written then |
| AuditLaws.NoDateRow | photos-date-check.py:61-63 | without `--fix`, NO DATE exactly when there is no EXIF, no tag, or an empty year field; "None" is shown when the tag is missing |
| AuditLaws.MismatchRow | photos-date-check.py:77-85 | without `--fix`, a stamp with a year is MISMATCH iff the tuple (extensive) or the year (default) is greater as strings, else OK |
| AuditLaws.NoDateWins | photos-date-check.py:86-94 | a missing year gives NO DATE whatever the comparison says |
| AuditLaws.EqualDatesAgree | photos-date-check.py:77-85 | equal dates never mismatch under either policy |
| AuditLaws.YearMismatchIsExtensive | photos-date-check.py:77-85 | a year-only mismatch is also an extensive mismatch |
| AuditLaws.YearOnlyIsChronological | photos-date-check.py:83-85 | on zero-padded years the string test means "the metadata year is numerically later" |
| AuditLaws.ExtensiveIsChronological | photos-date-check.py:78-81 | on zero-padded fields the tuple test means "the metadata date is chronologically later" |
| AuditLaws.DigitsInjective | photos-date-check.py:80 | two digit runs of one width are equal exactly when their values are |
| AuditLaws.FixWritesOnlyFlaggedFiles | photos-date-check.py:91-103 | only FIXED files are written, only with `--fix`, and only when the comparison says MISMATCH or NO DATE, never OK; ERR-FIX means the write failed; the written photo is the read one with the filename stamp set |
| AuditLaws.DatedWrites | photos-date-check.py:57-109 | the metadata steps always give a row naming the file and the filename date, and showing the metadata date as read before any fix ("None" for a missing tag, else the date part); they write exactly for FIXED, only with `--fix`, only when the comparison did not say OK, only to a writable file, and write the read photo with the filename stamp set |
| AuditLaws.FixStatus | photos-date-check.py:88-109 | with `--fix`, a file the comparison calls OK stays OK and is not written; a MISMATCH or NO DATE file ends FIXED and is written when the write succeeds, and ERR-FIX when it fails; every row shows the metadata date as read before the fix |
| AuditLaws.FixRoundTrip | photos-date-check.py:67-68 | the stamp written by `--fix`, re-read at lines 67-68, gives exactly the filename fields |
| AuditLaws.FixedFileIsOk | photos-date-check.py:67-109 | a file holding the fixed stamp is reported OK with both date columns equal |
| AuditLaws.FixIsIdempotent | photos-date-check.py:91-109 | after a successful fix, the next run reports the file OK and writes nothing, whatever the flags |
| AuditLaws.RunWithoutFix | photos-date-check.py:96-100 | without `--fix` a run changes no file |
| AuditLaws.RunChangesOnlyDateTag | photos-date-check.py:96-100 | a run creates or removes no file, and every tag other than the capture-time tag reads as it did |
| AuditLaws.RunAppend | photos-date-check.py:27 | rows come out in listing order: a run over two listings is the first run followed by the second |
| Reset.ResetEntry | reset-invalid-dates.py:10-37 | one loop iteration returns the row of `ResetFile` and leaves the directory as `ResetFile` says |
| Reset.ResetInvalidMetadata | reset-invalid-dates.py:5-37 | the output is the header, a 65-dash rule and the rows of `Run` in listing order; the directory ends as `Run` leaves it |
| Reset.ResetCommand | reset-invalid-dates.py:46-49 | dry-run is `not execute`; the dry-run notice comes first when not executing |
| ResetLaws.NonJpegIsIgnored | reset-invalid-dates.py:10-11 | a name not ending in `.jpg`/`.jpeg` gives no row and no change |
| ResetLaws.NoTagIsIgnored | reset-invalid-dates.py:15-19 | a file that does not decode, or has no EXIF or no tag, gives no row and no change |
| ResetLaws.RowIffYearBeforeCutoff | reset-invalid-dates.py:19-37 | a row is printed iff the tag's leading field is an integer year < 1980 and (dry-run or the write succeeds); it is WOULD RESET or RESET DONE with that year |
| ResetLaws.NonIntegerYearIsSkipped | reset-invalid-dates.py:22-37 | a tag whose leading field is not an integer literal makes `int()` raise: no row and no change |
| ResetLaws.NonIntegerYearExample | reset-invalid-dates.py:22-37 | a tag reading `abc:01:01 00:00:00` is skipped even when executing on a writable file |
| ResetLaws.YearIsLeadingField | reset-invalid-dates.py:21-22 | the year is the integer value of the digits before the first `:` |
| ResetLaws.WritesOnlyDeleteTheDate | reset-invalid-dates.py:26-33 | dry-run writes nothing; a write happens exactly for RESET DONE and deletes only the capture-time tag |
| ResetLaws.ResetIsIdempotent | reset-invalid-dates.py:19-33 | once the tag is deleted the file gives no row and no change |
| ResetLaws.ImpossibleYear | reset-invalid-dates.py:21-22 | the year of `1476:46:99 12:00:00` is 1476 |
| ResetLaws.ImpossibleYearExample | reset-invalid-dates.py:25-33 | that file is WOULD RESET 1476 and untouched in dry-run, RESET DONE 1476 with the tag deleted when executing |
| ResetLaws.ValueOf1476 | reset-invalid-dates.py:22 | `int("1476")` is 1476 |
| ResetLaws.DryRunChangesNothing | reset-invalid-dates.py:26-27 | a dry run leaves every file as it was |
| ResetLaws.RunOnlyDeletesDates | reset-invalid-dates.py:28-32 | a run creates or removes no file, changes no other tag, and never adds or alters a capture-time tag |
| ResetLaws.RunAppend | reset-invalid-dates.py:9 | rows come out in listing order: a run over two listings is the first run followed by the second |
| Interplay.FixedStampYear | reset-invalid-dates.py:22 | the resetter reads the filename year back from a stamp the auditor wrote |
| Interplay.FixedFileIsNotReset | photos-date-check.py:52-54 | a file the auditor fixed is never reported or changed by the resetter, since its year passed the 1980 bound |
| Interplay.StampedFileIsNotReset | reset-invalid-dates.py:19-25 | a file holding the stamp `--fix` writes for a date from 1980 on gives the resetter no row and no change |

## Left out

- The directory listing, `os.path.isdir` and `os.path.join`: the listing is an input sequence; its order is whatever the caller gives.
- The `exif` library's JPEG decoding and encoding: a decoded photo is a tag map with a `has_exif` flag. Whether a file decodes and whether a write-back succeeds are given as inputs.
- Setting the tag on a photo without EXIF is modelled as adding a new EXIF segment holding that tag alone. Whether the library does that or raises is decided by the write oracle (ERR-FIX when it raises).
- A file truncated when `open(..., 'wb')` succeeds but `get_file()` raises: in the model a failed write leaves the file as it was.
- `datetime.now()`: the current year is a parameter.
- argparse and printing: rows are records and the header and dash rules are tokens. Column padding is not modelled.
- Strings.ParseInt: does not model `int()` accepting surrounding whitespace, underscores between digits or non-ASCII digits. A tag like `" 1476:..."` would be reset by the script but skipped by the model.
- DatePattern.MatchAt: `\d` is read as an ASCII digit, while Python's `re` also accepts other Unicode decimal digits.
- File names with lone surrogates (what `os.listdir` makes of names that do not decode): strings are sequences of Unicode scalar values, so file names are taken to be valid Unicode.
- Strings.Lower: lower-cases ASCII letters only. For the `.png`, `.jpg` and `.jpeg` suffix tests this is the same as Python's `lower()`.
- The resetter's write-back failure: the code (reset-invalid-dates.py:28-37) does it inside the `try`, so the failure is swallowed with no row.
