/** What the resetter promises, stated over its specification `ResetFile`
    and `Run`. */
module ResetLaws {
  import opened Wrappers
  import opened Strings
  import opened Photos
  import opened Reset

  /** Only `.jpg`/`.jpeg` names, in any letter case, are looked at. */
  lemma NonJpegIsIgnored(files: map<string, Photo>, writable: set<string>, name: string, dryRun: bool)
    requires !IsJpegName(name)
    ensures ResetFile(files, writable, name, dryRun) == Outcome(None, None)
  {
  }

  /** A file that does not decode, has no EXIF or has no capture-time tag
      gives no row and no change. */
  lemma NoTagIsIgnored(files: map<string, Photo>, writable: set<string>, name: string, dryRun: bool)
    requires name !in files || GetTag(files[name], DateTimeOriginal).None?
    ensures ResetFile(files, writable, name, dryRun) == Outcome(None, None)
  {
  }

  /** A row is printed exactly for a JPEG whose capture-time tag starts with
      an integer year before 1980, in dry-run mode or when the write-back
      succeeds; it names the file and that year, and says WOULD RESET in
      dry-run mode and RESET DONE otherwise. A year that is not an integer
      is skipped without a row. */
  lemma RowIffYearBeforeCutoff(files: map<string, Photo>, writable: set<string>, name: string, dryRun: bool)
    ensures var o := ResetFile(files, writable, name, dryRun);
      && (o.row.Some? <==>
            && IsJpegName(name) && name in files
            && GetTag(files[name], DateTimeOriginal).Some?
            && YearOf(GetTag(files[name], DateTimeOriginal).value).Some?
            && YearOf(GetTag(files[name], DateTimeOriginal).value).value < Cutoff
            && (dryRun || name in writable))
      && (o.row.Some? ==>
            o.row.value == Row(if dryRun then WouldReset else ResetDone, name,
                               YearOf(GetTag(files[name], DateTimeOriginal).value).value))
  {
  }

  /** A tag whose leading field is not an integer literal makes `int()`
      raise: the file is skipped without a row and left as it was. */
  lemma NonIntegerYearIsSkipped(files: map<string, Photo>, writable: set<string>, name: string, dryRun: bool)
    requires name in files && GetTag(files[name], DateTimeOriginal).Some?
    requires !IsIntLiteral(FirstField(GetTag(files[name], DateTimeOriginal).value, ':'))
    ensures ResetFile(files, writable, name, dryRun) == Outcome(None, None)
  {
  }

  /** For instance a tag reading "abc:01:01 00:00:00" is skipped even when
      executing on a writable file. */
  lemma NonIntegerYearExample(files: map<string, Photo>, writable: set<string>, name: string)
    requires IsJpegName(name) && name in files && name in writable
    requires GetTag(files[name], DateTimeOriginal) == Some("abc:01:01 00:00:00")
    ensures ResetFile(files, writable, name, false) == Outcome(None, None)
  {
    FirstFieldOf("abc", ':', "01:01 00:00:00");
    assert !IsDigit('a');
  }

  /** The year is the integer before the first `:` of the tag. */
  lemma YearIsLeadingField(raw: string, head: string, tail: string)
    requires raw == head + ":" + tail && ':' !in head
    requires |head| > 0 && IsDigits(head)
    ensures YearOf(raw) == Some(DigitsValue(head) as int)
  {
    FirstFieldOf(head, ':', tail);
  }

  /** Dry-run writes nothing; executing writes only a reported file, and
      writes it with the capture-time tag deleted and everything else as it
      was. */
  lemma WritesOnlyDeleteTheDate(files: map<string, Photo>, writable: set<string>, name: string, dryRun: bool)
    ensures var o := ResetFile(files, writable, name, dryRun);
      && (dryRun ==> o.written.None?)
      && (o.written.Some? <==> o.row.Some? && o.row.value.action == ResetDone)
      && (o.written.Some? ==> name in files && o.written.value == DeleteTag(files[name], DateTimeOriginal))
  {
  }

  /** Resetting is idempotent: once the tag is deleted there is nothing left
      to reset. */
  lemma ResetIsIdempotent(files: map<string, Photo>, writable: set<string>, name: string, dryRun: bool,
                          writable': set<string>, dryRun': bool)
    requires ResetFile(files, writable, name, dryRun).written.Some?
    ensures var p := ResetFile(files, writable, name, dryRun).written.value;
      ResetFile(files[name := p], writable', name, dryRun') == Outcome(None, None)
  {
    var p := ResetFile(files, writable, name, dryRun).written.value;
    assert Load(files[name := p], name) == Some(p);
  }

  /** The example the script is written for: a tag reading "1476:46:99 ..."
      is reported with year 1476, left alone in dry-run mode and deleted
      when executing. */
  lemma ImpossibleYearExample(files: map<string, Photo>, writable: set<string>, name: string, p: Photo)
    requires IsJpegName(name) && name in files && files[name] == p && name in writable
    requires GetTag(p, DateTimeOriginal) == Some("1476:46:99 12:00:00")
    ensures ResetFile(files, writable, name, true) == Outcome(Some(Row(WouldReset, name, 1476)), None)
    ensures ResetFile(files, writable, name, false) == Outcome(Some(Row(ResetDone, name, 1476)), Some(DeleteTag(p, DateTimeOriginal)))
  {
    ImpossibleYear();
  }

  lemma ImpossibleYear()
    ensures YearOf("1476:46:99 12:00:00") == Some(1476)
  {
    assert "1476:46:99 12:00:00" == "1476" + ":" + "46:99 12:00:00";
    assert ':' !in "1476";
    YearIsLeadingField("1476:46:99 12:00:00", "1476", "46:99 12:00:00");
    ValueOf1476();
  }

  lemma ValueOf1476()
    ensures DigitsValue("1476") == 1476
  {
    assert "1476"[1..] == "476" && "476"[1..] == "76" && "76"[1..] == "6" && "6"[1..] == "";
  }

  /** Directories that differ at most by deleted capture-time tags: nothing
      is created or removed, no other tag changes, and no capture-time tag
      is added or changed. */
  ghost predicate OnlyDatesDeleted(a: map<string, Photo>, b: map<string, Photo>) {
    && a.Keys == b.Keys
    && forall n :: n in a ==>
         && b[n].hasExif == a[n].hasExif
         && b[n].tags - {DateTimeOriginal} == a[n].tags - {DateTimeOriginal}
         && (DateTimeOriginal in b[n].tags ==>
               DateTimeOriginal in a[n].tags && b[n].tags[DateTimeOriginal] == a[n].tags[DateTimeOriginal])
  }

  /** A dry run leaves every file as it was. */
  lemma {:induction false} DryRunChangesNothing(files: map<string, Photo>, writable: set<string>, listing: seq<string>)
    ensures Run(files, writable, listing, true).files == files
    decreases |listing|
  {
    if |listing| > 0 {
      DryRunChangesNothing(files, writable, listing[..|listing| - 1]);
      WritesOnlyDeleteTheDate(files, writable, listing[|listing| - 1], true);
    }
  }

  /** An executing run only deletes capture-time tags. */
  lemma {:induction false} RunOnlyDeletesDates(files: map<string, Photo>, writable: set<string>, listing: seq<string>, dryRun: bool)
    ensures OnlyDatesDeleted(files, Run(files, writable, listing, dryRun).files)
    decreases |listing|
  {
    if |listing| > 0 {
      var before := Run(files, writable, listing[..|listing| - 1], dryRun).files;
      var name := listing[|listing| - 1];
      RunOnlyDeletesDates(files, writable, listing[..|listing| - 1], dryRun);
      WritesOnlyDeleteTheDate(before, writable, name, dryRun);
      var o := ResetFile(before, writable, name, dryRun);
      if o.written.Some? {
        assert o.written.value.tags - {DateTimeOriginal} == before[name].tags - {DateTimeOriginal};
      }
    }
  }

  /** Rows come out in listing order: a run over two listings one after the
      other is the first run followed by the second. */
  lemma {:induction false} RunAppend(files: map<string, Photo>, writable: set<string>, first: seq<string>, second: seq<string>, dryRun: bool)
    ensures var r1 := Run(files, writable, first, dryRun);
      var r2 := Run(r1.files, writable, second, dryRun);
      Run(files, writable, first + second, dryRun) == RunState(r1.lines + r2.lines, r2.files)
    decreases |second|
  {
    if |second| == 0 {
      assert first + second == first;
    } else {
      var n := |second| - 1;
      assert (first + second)[..|first + second| - 1] == first + second[..n];
      assert (first + second)[|first + second| - 1] == second[n];
      RunAppend(files, writable, first, second[..n], dryRun);
    }
  }
}
