/** How the two scripts interact on the same directory. */
module Interplay {
  import opened Wrappers
  import opened Strings
  import opened Calendar
  import opened DatePattern
  import opened Photos
  import Audit
  import Reset
  import AuditLaws

  /** The year the resetter reads from a stamp written by `--fix` is the
      filename year. */
  lemma FixedStampYear(f: DateMatch)
    requires f.WellFormed()
    ensures Reset.YearOf(Audit.FixedStamp(f)) == Some(DigitsValue(f.year) as int)
  {
    var rest := f.month + ":" + f.day + " 00:00:00";
    assert Audit.FixedStamp(f) == f.year + [':'] + rest;
    assert ':' !in f.year by {
      assert !IsDigit(':');
    }
    FirstFieldOf(f.year, ':', rest);
  }

  /** A file the auditor has fixed is never touched by the resetter: the
      filename year it now carries passed `is_valid_date`, so it is at least
      1980. */
  lemma FixedFileIsNotReset(files: map<string, Photo>, writable: set<string>, e: Audit.DirEntry, flags: Audit.Flags,
                            currentYear: int, writable': set<string>, dryRun: bool)
    requires Audit.AuditFile(files, writable, e, flags, currentYear).written.Some?
    ensures var p := Audit.AuditFile(files, writable, e, flags, currentYear).written.value;
      Reset.ResetFile(files[e.name := p], writable', e.name, dryRun) == Reset.Outcome(None, None)
  {
    AuditLaws.FixWritesOnlyFlaggedFiles(files, writable, e, flags, currentYear);
    var f := FindDate(e.name).value;
    StampedFileIsNotReset(files[e.name := Audit.AuditFile(files, writable, e, flags, currentYear).written.value],
                          writable', e.name, dryRun, f, files[e.name]);
  }

  /** A file carrying a stamp `--fix` writes for a valid filename date is
      left alone by the resetter. */
  lemma StampedFileIsNotReset(files: map<string, Photo>, writable: set<string>, name: string, dryRun: bool, f: DateMatch, q: Photo)
    requires f.WellFormed() && DigitsValue(f.year) >= EarliestYear
    requires name in files && files[name] == SetTag(q, DateTimeOriginal, Audit.FixedStamp(f))
    ensures Reset.ResetFile(files, writable, name, dryRun) == Reset.Outcome(None, None)
  {
    FixedStampYear(f);
    assert Load(files, name) == Some(files[name]);
  }
}
