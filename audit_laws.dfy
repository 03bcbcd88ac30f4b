/** What the auditor promises, stated over its specification `AuditFile`
    and `Run`. */
module AuditLaws {
  import opened Wrappers
  import opened Strings
  import opened Calendar
  import opened DatePattern
  import opened Photos
  import opened Audit

  // ---- Classification -------------------------------------------------

  /** A directory gives no row and no write. */
  lemma DirectoryIsIgnored(files: map<string, Photo>, writable: set<string>, e: DirEntry, flags: Flags, currentYear: int)
    requires e.isDir
    ensures AuditFile(files, writable, e, flags, currentYear) == Outcome(None, None)
  {
  }

  /** A `.png` name, in any letter case, is reported SKIPPED whatever the
      flags and the file's contents. */
  lemma PngIsSkipped(files: map<string, Photo>, writable: set<string>, e: DirEntry, flags: Flags, currentYear: int)
    requires !e.isDir && IsPngName(e.name)
    ensures AuditFile(files, writable, e, flags, currentYear) == Outcome(Some(Row(Skipped, e.name, "-", "PNG format ignored")), None)
  {
  }

  /** A name that is neither `.png` nor `.jpg`/`.jpeg` gives no row and no
      write. */
  lemma OtherIsIgnored(files: map<string, Photo>, writable: set<string>, e: DirEntry, flags: Flags, currentYear: int)
    requires !e.isDir && !IsPngName(e.name) && !IsJpegName(e.name)
    ensures AuditFile(files, writable, e, flags, currentYear) == Outcome(None, None)
  {
  }

  // ---- The filename date ----------------------------------------------

  /** A JPEG whose name the date pattern matches nowhere is reported NO DATE
      with "N/A". */
  lemma NoDateInName(files: map<string, Photo>, writable: set<string>, e: DirEntry, flags: Flags, currentYear: int)
    requires !e.isDir && IsJpegName(e.name)
    requires forall j: nat, m: DateMatch :: !MatchesAt(e.name, j, m)
    ensures AuditFile(files, writable, e, flags, currentYear) == Outcome(Some(Row(NoDate, e.name, "N/A", "No date in filename")), None)
  {
    FindDateNone(e.name);
    PngIsNotJpeg(e.name);
  }

  /** The date used is the leftmost match: the row shows it, or, when it is
      not a valid date, there is no row at all (a later valid match is not
      tried). */
  lemma UsesLeftmostDate(files: map<string, Photo>, writable: set<string>, e: DirEntry, flags: Flags, currentYear: int,
                         k: nat, m: DateMatch)
    requires !e.isDir && IsJpegName(e.name)
    requires MatchesAt(e.name, k, m)
    requires forall j: nat, m': DateMatch :: j < k ==> !MatchesAt(e.name, j, m')
    ensures var o := AuditFile(files, writable, e, flags, currentYear);
      if ValidFileDate(m, currentYear) then o.row.Some? && o.row.value.filename == e.name && o.row.value.fileDate == FileDateText(m)
      else o == Outcome(None, None)
  {
    FindDateIsLeftmost(e.name, k, m);
    PngIsNotJpeg(e.name);
  }

  /** A filename date that fails validation gives no row, and the outcome
      does not depend on the file's contents: nothing is read or written. */
  lemma InvalidDateIsIgnored(files: map<string, Photo>, other: map<string, Photo>, writable: set<string>,
                             e: DirEntry, flags: Flags, currentYear: int, f: DateMatch)
    requires !e.isDir && IsJpegName(e.name)
    requires FindDate(e.name) == Some(f) && !ValidFileDate(f, currentYear)
    ensures AuditFile(files, writable, e, flags, currentYear) == Outcome(None, None)
    ensures AuditFile(other, writable, e, flags, currentYear) == Outcome(None, None)
  {
    PngIsNotJpeg(e.name);
  }

  // ---- Reading the metadata -------------------------------------------

  /** A JPEG whose leftmost filename date is valid goes on to the metadata
      read, the comparison and the action, which the lemmas below describe. */
  lemma DatedFile(files: map<string, Photo>, writable: set<string>, e: DirEntry, flags: Flags, currentYear: int, f: DateMatch)
    requires !e.isDir && IsJpegName(e.name)
    requires FindDate(e.name) == Some(f) && ValidFileDate(f, currentYear)
    ensures AuditFile(files, writable, e, flags, currentYear) == AuditDated(files, writable, e.name, f, flags)
  {
    PngIsNotJpeg(e.name);
  }

  /** ERROR, with "Could not read EXIF", exactly when the file does not
      decode or its date part does not split into three `:` fields; nothing
      is written then. */
  lemma ErrorRow(files: map<string, Photo>, writable: set<string>, name: string, f: DateMatch, flags: Flags)
    ensures var o := AuditDated(files, writable, name, f, flags);
      && o.row.Some? && o.row.value.filename == name && o.row.value.fileDate == FileDateText(f)
      && (o.row.value.status == Error <==>
            || name !in files
            || (GetTag(files[name], DateTimeOriginal).Some? &&
                |Split(FirstField(GetTag(files[name], DateTimeOriginal).value, ' '), ':')| != 3))
      && (o.row.value.status == Error ==> o.row.value.metaDate == "Could not read EXIF" && o.written.None?)
  {
  }

  /** Without `--fix`, NO DATE exactly when the photo has no EXIF, no
      capture-time tag, or an empty year field; "None" is shown when the tag
      is missing. */
  lemma NoDateRow(files: map<string, Photo>, writable: set<string>, name: string, f: DateMatch, flags: Flags)
    requires !flags.fix && name in files
    ensures var o := AuditDated(files, writable, name, f, flags);
      var tag := GetTag(files[name], DateTimeOriginal);
      && o.row.Some?
      && (o.row.value.status == NoDate <==>
            || tag.None?
            || (var fields := Split(FirstField(tag.value, ' '), ':'); |fields| == 3 && fields[0] == ""))
      && (tag.None? ==> o.row.value.metaDate == "None")
  {
  }

  /** Without `--fix`, a readable stamp with a non-empty year is MISMATCH
      exactly when it is later than the filename date under the chosen
      policy, and OK otherwise. */
  lemma MismatchRow(files: map<string, Photo>, writable: set<string>, name: string, f: DateMatch, flags: Flags)
    requires !flags.fix
    requires ReadMeta(Load(files, name)).Stamp? && ReadMeta(Load(files, name)).year != ""
    ensures var o := AuditDated(files, writable, name, f, flags);
      var meta := ReadMeta(Load(files, name));
      && o.row.Some?
      && o.row.value.metaDate == meta.shown
      && (o.row.value.status == Mismatch <==>
            if flags.extensive then TupleGreater(meta.year, meta.month, meta.day, f.year, f.month, f.day)
            else Less(f.year, meta.year))
      && (o.row.value.status == Mismatch || o.row.value.status == Ok)
  {
  }

  /** NO DATE wins over MISMATCH: whatever the comparison says, a missing
      year gives NO DATE. */
  lemma NoDateWins(meta: MetaRead, f: DateMatch, extensive: bool)
    requires meta.Missing? || (meta.Stamp? && meta.year == "")
    ensures Verdict(meta, f, extensive) == NoDate
  {
  }

  // ---- The comparison -------------------------------------------------

  /** Equal dates never mismatch, under either policy. */
  lemma EqualDatesAgree(f: DateMatch, extensive: bool)
    ensures !Later(f.year, f.month, f.day, f, extensive)
  {
    LessIrreflexive(f.year);
    LessIrreflexive(f.day);
  }

  /** A later year is a later date: a year-only mismatch is also an
      extensive one. */
  lemma YearMismatchIsExtensive(year: string, month: string, day: string, f: DateMatch)
    requires Later(year, month, day, f, false)
    ensures Later(year, month, day, f, true)
  {
    LessIrreflexive(year);
  }

  /** On zero-padded fields the year-only string test is the numeric test
      "the metadata year is later". */
  lemma YearOnlyIsChronological(year: string, month: string, day: string, f: DateMatch)
    requires f.WellFormed() && |year| == 4 && IsDigits(year)
    ensures Later(year, month, day, f, false) <==> DigitsValue(year) > DigitsValue(f.year)
  {
    LessDigits(f.year, year);
  }

  /** On zero-padded fields the extensive tuple test is the chronological
      test "the metadata date is later". */
  lemma ExtensiveIsChronological(year: string, month: string, day: string, f: DateMatch)
    requires f.WellFormed()
    requires |year| == 4 && IsDigits(year) && |month| == 2 && IsDigits(month) && |day| == 2 && IsDigits(day)
    ensures var y, m, d := DigitsValue(year), DigitsValue(month), DigitsValue(day);
      var fy, fm, fd := DigitsValue(f.year), DigitsValue(f.month), DigitsValue(f.day);
      Later(year, month, day, f, true) <==> (y > fy || (y == fy && (m > fm || (m == fm && d > fd))))
  {
    LessDigits(f.year, year);
    LessDigits(f.month, month);
    LessDigits(f.day, day);
    DigitsInjective(year, f.year);
    DigitsInjective(month, f.month);
  }

  /** Two digit runs of one width with one value are the same run. */
  lemma DigitsInjective(a: string, b: string)
    requires IsDigits(a) && IsDigits(b) && |a| == |b|
    ensures a == b <==> DigitsValue(a) == DigitsValue(b)
  {
    LessDigits(a, b);
    LessDigits(b, a);
    if a != b {
      LessTotal(a, b);
    }
  }

  // ---- Fixing ---------------------------------------------------------

  /** What `--fix` writes and when: only a file reported FIXED is written,
      and only with `--fix`, never an OK file; the written photo carries the
      filename date as its capture time and keeps every other tag. */
  lemma FixWritesOnlyFlaggedFiles(files: map<string, Photo>, writable: set<string>, e: DirEntry, flags: Flags, currentYear: int)
    ensures var o := AuditFile(files, writable, e, flags, currentYear);
      && (o.written.Some? <==> o.row.Some? && o.row.value.status == Fixed)
      && (o.row.Some? && (o.row.value.status == Fixed || o.row.value.status == ErrFix) ==> flags.fix)
      && (o.row.Some? && o.row.value.status == Fixed ==> e.name in writable)
      && (o.row.Some? && o.row.value.status == ErrFix ==> e.name !in writable)
      && (!flags.fix ==> o.written.None?)
      && (o.written.Some? ==>
            && !e.isDir && IsJpegName(e.name) && e.name in files
            && FindDate(e.name).Some? && ValidFileDate(FindDate(e.name).value, currentYear)
            && o.written.value == SetTag(files[e.name], DateTimeOriginal, FixedStamp(FindDate(e.name).value))
            && !ReadMeta(Load(files, e.name)).Unreadable?
            && Verdict(ReadMeta(Load(files, e.name)), FindDate(e.name).value, flags.extensive) != Ok)
  {
    AuditFileCases(files, writable, e, flags, currentYear);
    if FindDate(e.name).Some? {
      DatedWrites(files, writable, e.name, FindDate(e.name).value, flags);
    }
  }

  /** Where the outcome for one entry comes from: no write and at most a
      SKIPPED or NO DATE row, or the metadata read, the comparison and the
      action on the leftmost filename date. */
  lemma AuditFileCases(files: map<string, Photo>, writable: set<string>, e: DirEntry, flags: Flags, currentYear: int)
    ensures var o := AuditFile(files, writable, e, flags, currentYear);
      || (o.written.None? && (o.row.Some? ==> o.row.value.status == Skipped || o.row.value.status == NoDate))
      || (&& !e.isDir && IsJpegName(e.name)
          && FindDate(e.name).Some? && ValidFileDate(FindDate(e.name).value, currentYear)
          && o == AuditDated(files, writable, e.name, FindDate(e.name).value, flags))
  {
  }

  /** The metadata read, the comparison and the action always print a row
      showing the metadata date as it was read; they write only a FIXED
      file, and only with `--fix`. */
  lemma DatedWrites(files: map<string, Photo>, writable: set<string>, name: string, f: DateMatch, flags: Flags)
    ensures var o := AuditDated(files, writable, name, f, flags);
      && o.row.Some?
      && (o.written.Some? <==> o.row.value.status == Fixed)
      && (o.row.value.status == Fixed || o.row.value.status == ErrFix ==> flags.fix)
      && (o.row.value.status == Fixed ==> name in writable)
      && (o.row.value.status == ErrFix ==> name !in writable)
      && (o.written.Some? ==> name in files && o.written.value == SetTag(files[name], DateTimeOriginal, FixedStamp(f)))
      && (o.written.Some? ==> flags.fix && !ReadMeta(Load(files, name)).Unreadable?
                              && Verdict(ReadMeta(Load(files, name)), f, flags.extensive) != Ok)
      && o.row.value.filename == name && o.row.value.fileDate == FileDateText(f)
      && (!ReadMeta(Load(files, name)).Unreadable? ==>
            o.row.value.metaDate == (if ReadMeta(Load(files, name)).Missing? then "None" else ReadMeta(Load(files, name)).shown))
  {
  }

  /** With `--fix`, a file the comparison calls OK stays OK and is not
      written; a file it flags (MISMATCH or NO DATE) ends FIXED when the
      write succeeds and ERR-FIX when it fails. Every row shows the
      metadata date as read before the fix. */
  lemma FixStatus(files: map<string, Photo>, writable: set<string>, name: string, f: DateMatch, flags: Flags)
    requires flags.fix
    requires !ReadMeta(Load(files, name)).Unreadable?
    ensures var o := AuditDated(files, writable, name, f, flags);
      && o.row.Some?
      && o.row.value.status == (if Verdict(ReadMeta(Load(files, name)), f, flags.extensive) == Ok then Ok
                                else if name in writable then Fixed else ErrFix)
      && (o.written.Some? <==> Verdict(ReadMeta(Load(files, name)), f, flags.extensive) != Ok && name in writable)
      && o.row.value.metaDate == (if ReadMeta(Load(files, name)).Missing? then "None" else ReadMeta(Load(files, name)).shown)
  {
  }

  /** The stamp written by `--fix`, read back the way the auditor reads it,
      gives exactly the filename fields. */
  lemma FixRoundTrip(p: Photo, f: DateMatch)
    requires f.WellFormed()
    ensures ReadMeta(Some(SetTag(p, DateTimeOriginal, FixedStamp(f)))) == Stamp(FileDateText(f), f.year, f.month, f.day)
  {
    var date := FileDateText(f);
    var stamp := SetTag(p, DateTimeOriginal, FixedStamp(f));
    assert ':' !in f.year && ':' !in f.month && ':' !in f.day by {
      assert !IsDigit(':');
    }
    assert ' ' !in date by {
      assert !IsDigit(' ');
      assert forall i :: 0 <= i < |date| ==> date[i] == ':' || IsDigit(date[i]);
    }
    assert FixedStamp(f) == date + [' '] + "00:00:00";
    FirstFieldOf(date, ' ', "00:00:00");
    assert GetTag(stamp, DateTimeOriginal) == Some(FixedStamp(f));
    JoinCons(f.month, [f.day], ':');
    JoinCons(f.year, [f.month, f.day], ':');
    assert Join([f.year, f.month, f.day], ':') == date;
    SplitJoin([f.year, f.month, f.day], ':');
  }

  /** Fixing is idempotent: once a file is fixed, the next run reports it OK,
      with the metadata column equal to the filename date, and writes
      nothing, whatever the flags and the write outcome. */
  lemma FixIsIdempotent(files: map<string, Photo>, writable: set<string>, e: DirEntry, flags: Flags, currentYear: int,
                        writable': set<string>, flags': Flags)
    requires AuditFile(files, writable, e, flags, currentYear).written.Some?
    ensures var f := FindDate(e.name).value;
      var p := AuditFile(files, writable, e, flags, currentYear).written.value;
      AuditFile(files[e.name := p], writable', e, flags', currentYear)
        == Outcome(Some(Row(Ok, e.name, FileDateText(f), FileDateText(f))), None)
  {
    var f := FindDate(e.name).value;
    FixWritesOnlyFlaggedFiles(files, writable, e, flags, currentYear);
    var p := AuditFile(files, writable, e, flags, currentYear).written.value;
    PngIsNotJpeg(e.name);
    FixedFileIsOk(files[e.name := p], writable', e.name, f, flags', files[e.name]);
  }

  /** A file holding the stamp `--fix` writes reads back as OK. */
  lemma FixedFileIsOk(files: map<string, Photo>, writable: set<string>, name: string, f: DateMatch, flags: Flags, q: Photo)
    requires f.WellFormed()
    requires name in files && files[name] == SetTag(q, DateTimeOriginal, FixedStamp(f))
    ensures AuditDated(files, writable, name, f, flags) == Outcome(Some(Row(Ok, name, FileDateText(f), FileDateText(f))), None)
  {
    FixRoundTrip(q, f);
    EqualDatesAgree(f, flags.extensive);
  }

  // ---- The whole run --------------------------------------------------

  /** Two directories holding the same files, whose tags other than the
      capture-time tag read the same. */
  ghost predicate SameButDate(a: map<string, Photo>, b: map<string, Photo>) {
    a.Keys == b.Keys && forall n :: n in a ==> SameTagsBut(a[n], b[n], DateTimeOriginal)
  }

  /** Without `--fix` a run changes no file. */
  lemma {:induction false} RunWithoutFix(files: map<string, Photo>, writable: set<string>, listing: seq<DirEntry>, flags: Flags, currentYear: int)
    requires !flags.fix
    ensures Run(files, writable, listing, flags, currentYear).files == files
    decreases |listing|
  {
    if |listing| > 0 {
      RunWithoutFix(files, writable, listing[..|listing| - 1], flags, currentYear);
      FixWritesOnlyFlaggedFiles(files, writable, listing[|listing| - 1], flags, currentYear);
    }
  }

  /** A run changes no file's tags other than the capture-time tag, and
      creates or removes no file. */
  lemma {:induction false} RunChangesOnlyDateTag(files: map<string, Photo>, writable: set<string>, listing: seq<DirEntry>, flags: Flags, currentYear: int)
    ensures SameButDate(files, Run(files, writable, listing, flags, currentYear).files)
    decreases |listing|
  {
    if |listing| > 0 {
      var before := Run(files, writable, listing[..|listing| - 1], flags, currentYear).files;
      var e := listing[|listing| - 1];
      RunChangesOnlyDateTag(files, writable, listing[..|listing| - 1], flags, currentYear);
      FixWritesOnlyFlaggedFiles(before, writable, e, flags, currentYear);
      var o := AuditFile(before, writable, e, flags, currentYear);
      if o.written.Some? {
        var p := o.written.value;
        assert SameTagsBut(before[e.name], p, DateTimeOriginal);
      }
    }
  }

  /** Rows come out in listing order: a run over two listings one after the
      other is the first run followed by the second, from where the first
      left the directory. */
  lemma {:induction false} RunAppend(files: map<string, Photo>, writable: set<string>, first: seq<DirEntry>, second: seq<DirEntry>,
                                     flags: Flags, currentYear: int)
    ensures var r1 := Run(files, writable, first, flags, currentYear);
      var r2 := Run(r1.files, writable, second, flags, currentYear);
      Run(files, writable, first + second, flags, currentYear) == RunState(r1.lines + r2.lines, r2.files)
    decreases |second|
  {
    if |second| == 0 {
      assert first + second == first;
    } else {
      var n := |second| - 1;
      assert (first + second)[..|first + second| - 1] == first + second[..n];
      assert (first + second)[|first + second| - 1] == second[n];
      RunAppend(files, writable, first, second[..n], flags, currentYear);
      var r1 := Run(files, writable, first, flags, currentYear);
      StepAfter(r1.lines, Run(r1.files, writable, second[..n], flags, currentYear), writable, second[n], flags, currentYear);
    }
  }

  /** A step only appends to what was printed before it. */
  lemma StepAfter(earlier: seq<Line>, st: RunState, writable: set<string>, e: DirEntry, flags: Flags, currentYear: int)
    ensures var after := Step(st, writable, e, flags, currentYear);
      Step(RunState(earlier + st.lines, st.files), writable, e, flags, currentYear) == RunState(earlier + after.lines, after.files)
  {
    var o := AuditFile(st.files, writable, e, flags, currentYear);
    var row := if o.row.Some? then [Report(o.row.value)] else [];
    assert earlier + st.lines + row == earlier + (st.lines + row);
  }
}
