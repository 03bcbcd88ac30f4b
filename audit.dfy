/** The filename/metadata auditor (`process_images`): for each directory
    entry, classify it, find the date in its name, validate it, read the
    capture-time tag, compare, report, and on `--fix` write the filename date
    into the tag. */
module Audit {
  import opened Wrappers
  import opened Strings
  import opened Calendar
  import opened DatePattern
  import opened Photos

  /** The status column: `[SKIPPED]`, `[NO DATE]`, `[ERROR]`, `[MISMATCH]`,
      `[FIXED]`, `[ERR-FIX]`, `[OK]`. */
  datatype Status = Skipped | NoDate | Error | Mismatch | Fixed | ErrFix | Ok

  /** One printed row: status, file name, filename-date column, metadata
      column. */
  datatype Row = Row(status: Status, filename: string, fileDate: string, metaDate: string)

  /** The printed output: the column header, the rule of dashes, the rows. */
  datatype Line = Heading | Dashes(width: nat) | Report(row: Row)

  /** The width of the rule under the header. */
  const RuleWidth: nat := 95

  /** One entry of the directory listing. */
  datatype DirEntry = DirEntry(name: string, isDir: bool)

  /** `--fix` and `--extensive`. */
  datatype Flags = Flags(fix: bool, extensive: bool)

  /** `f"{f_year}:{f_month}:{f_day}"` */
  function FileDateText(f: DateMatch): string {
    f.year + ":" + f.month + ":" + f.day
  }

  /** The value `--fix` stores in the capture-time tag. */
  function FixedStamp(f: DateMatch): string {
    FileDateText(f) + " 00:00:00"
  }

  /** The filename date passes `is_valid_date` (`int()` of each group). */
  predicate ValidFileDate(f: DateMatch, currentYear: int)
    requires f.WellFormed()
  {
    IsValidDate(DigitsValue(f.year), DigitsValue(f.month), DigitsValue(f.day), currentYear)
  }

  /** What the metadata step yields: a read that raised (the file does not
      decode, or the date part does not split into three fields), no tag,
      or the shown date part with its three fields. A missing tag stands for
      `meta_year = None`; both it and an empty year field are falsy. */
  datatype MetaRead = Unreadable | Missing | Stamp(shown: string, year: string, month: string, day: string)

  function ReadMeta(img: Option<Photo>): (r: MetaRead)
    ensures img.None? ==> r.Unreadable?
    ensures r.Missing? <==> img.Some? && GetTag(img.value, DateTimeOriginal).None?
    ensures img.Some? && GetTag(img.value, DateTimeOriginal).Some? ==>
      (r.Stamp? <==> |Split(FirstField(GetTag(img.value, DateTimeOriginal).value, ' '), ':')| == 3)
    ensures r.Stamp? ==>
      && img.Some? && GetTag(img.value, DateTimeOriginal).Some?
      && r.shown == FirstField(GetTag(img.value, DateTimeOriginal).value, ' ')
      && [r.year, r.month, r.day] == Split(r.shown, ':')
    ensures r.Stamp? ==> r.shown == Join([r.year, r.month, r.day], ':')
    ensures r.Stamp? ==> ' ' !in r.shown
  {
    match img
    case None => Unreadable
    case Some(p) =>
      match GetTag(p, DateTimeOriginal)
      case None => Missing
      case Some(raw) =>
        var shown := FirstField(raw, ' ');
        var fields := Split(shown, ':');
        if |fields| == 3 then
          assert fields == [fields[0], fields[1], fields[2]];
          Stamp(shown, fields[0], fields[1], fields[2])
        else
          Unreadable
  }

  /** The comparison policy: the metadata date is later than the filename
      date, by the whole date or by the year alone, as strings. */
  predicate Later(year: string, month: string, day: string, f: DateMatch, extensive: bool) {
    if extensive then TupleGreater(year, month, day, f.year, f.month, f.day)
    else Less(f.year, year)
  }

  /** The status before any fix: NO DATE when there is no usable metadata
      year (it wins over MISMATCH), else MISMATCH when the metadata date is
      later, else OK. */
  function Verdict(meta: MetaRead, f: DateMatch, extensive: bool): (s: Status)
    requires !meta.Unreadable?
    ensures s == Ok || s == Mismatch || s == NoDate
  {
    if meta.Missing? || meta.year == "" then NoDate
    else if Later(meta.year, meta.month, meta.day, f, extensive) then Mismatch
    else Ok
  }

  /** The result of one entry: the row printed, if any, and the photo written
      back, if a write succeeded. */
  datatype Outcome = Outcome(row: Option<Row>, written: Option<Photo>)

  /** The specification of one iteration of the loop in `process_images`. */
  function AuditFile(files: map<string, Photo>, writable: set<string>, e: DirEntry, flags: Flags, currentYear: int): Outcome {
    if e.isDir then Outcome(None, None)
    else if IsPngName(e.name) then Outcome(Some(Row(Skipped, e.name, "-", "PNG format ignored")), None)
    else if !IsJpegName(e.name) then Outcome(None, None)
    else
      match FindDate(e.name)
      case None => Outcome(Some(Row(NoDate, e.name, "N/A", "No date in filename")), None)
      case Some(f) =>
        if !ValidFileDate(f, currentYear) then Outcome(None, None)
        else AuditDated(files, writable, e.name, f, flags)
  }

  /** The metadata read, the comparison and the action for a file whose
      name holds a valid date `f`: read the tag, compare, report, and fix. */
  function AuditDated(files: map<string, Photo>, writable: set<string>, name: string, f: DateMatch, flags: Flags): Outcome {
    var img := Load(files, name);
    var meta := ReadMeta(img);
    if meta.Unreadable? then Outcome(Some(Row(Error, name, FileDateText(f), "Could not read EXIF")), None)
    else
      var shown := if meta.Missing? then "None" else meta.shown;
      var verdict := Verdict(meta, f, flags.extensive);
      if verdict == Ok || !flags.fix then Outcome(Some(Row(verdict, name, FileDateText(f), shown)), None)
      else if name in writable then
        Outcome(Some(Row(Fixed, name, FileDateText(f), shown)), Some(SetTag(img.value, DateTimeOriginal, FixedStamp(f))))
      else
        Outcome(Some(Row(ErrFix, name, FileDateText(f), shown)), None)
  }

  /** What a run has printed (after the header) and the directory it leaves. */
  datatype RunState = RunState(lines: seq<Line>, files: map<string, Photo>)

  /** The specification of the loop: the entries processed one after the
      other, in listing order. */
  function Run(files: map<string, Photo>, writable: set<string>, listing: seq<DirEntry>, flags: Flags, currentYear: int): RunState
    decreases |listing|
  {
    if |listing| == 0 then RunState([], files)
    else Step(Run(files, writable, listing[..|listing| - 1], flags, currentYear), writable, listing[|listing| - 1], flags, currentYear)
  }

  /** One entry: its row, if any, is printed after the earlier ones and its
      write, if any, is applied to the directory. */
  function Step(before: RunState, writable: set<string>, e: DirEntry, flags: Flags, currentYear: int): RunState {
    var o := AuditFile(before.files, writable, e, flags, currentYear);
    RunState(before.lines + (if o.row.Some? then [Report(o.row.value)] else []),
             Apply(before.files, e.name, o.written))
  }

  /** The body of the loop in `process_images`, with its flags assigned and
      overwritten step by step. */
  method CheckFile(disk: Disk, e: DirEntry, flags: Flags, currentYear: int) returns (row: Option<Row>)
    modifies disk
    ensures disk.writable == old(disk.writable)
    ensures row == AuditFile(old(disk.files), disk.writable, e, flags, currentYear).row
    ensures disk.files == Apply(old(disk.files), e.name, AuditFile(old(disk.files), disk.writable, e, flags, currentYear).written)
  {
    if e.isDir {
      return None;
    }
    if IsPngName(e.name) {
      return Some(Row(Skipped, e.name, "-", "PNG format ignored"));
    }
    if !IsJpegName(e.name) {
      return None;
    }
    var found := FindDate(e.name);
    if found.None? {
      return Some(Row(NoDate, e.name, "N/A", "No date in filename"));
    }
    var f := found.value;
    if !ValidFileDate(f, currentYear) {
      return None;
    }

    row := CheckDatedFile(disk, e.name, f, flags);
  }

  /** The last part of the loop body: the metadata read, the comparison with
      `mismatch`, `no_date` and `status` assigned and overwritten in turn,
      and the fix. */
  method CheckDatedFile(disk: Disk, name: string, f: DateMatch, flags: Flags) returns (row: Option<Row>)
    modifies disk
    ensures disk.writable == old(disk.writable)
    ensures row == AuditDated(old(disk.files), disk.writable, name, f, flags).row
    ensures disk.files == Apply(old(disk.files), name, AuditDated(old(disk.files), disk.writable, name, f, flags).written)
  {
    var fileDate := FileDateText(f);
    var img := disk.Open(name);
    ghost var spec := AuditDated(old(disk.files), disk.writable, name, f, flags);
    ghost var meta := ReadMeta(img);
    if img.None? {
      return Some(Row(Error, name, fileDate, "Could not read EXIF"));
    }
    var metaShown: string;
    var metaYear: string, metaMonth: string, metaDay: string;
    if !img.value.hasExif || DateTimeOriginal !in img.value.tags {
      metaShown := "None";
      metaYear, metaMonth, metaDay := "", "", "";
      assert meta == Missing;
    } else {
      var raw := img.value.tags[DateTimeOriginal];
      metaShown := FirstField(raw, ' ');
      var fields := Split(metaShown, ':');
      if |fields| != 3 {
        return Some(Row(Error, name, fileDate, "Could not read EXIF"));
      }
      metaYear, metaMonth, metaDay := fields[0], fields[1], fields[2];
      assert meta == Stamp(metaShown, metaYear, metaMonth, metaDay);
    }
    assert spec.row.Some? && spec.row.value.metaDate == metaShown;

    var mismatch := false;
    var noDate := false;
    if metaYear != "" {
      if flags.extensive {
        if TupleGreater(metaYear, metaMonth, metaDay, f.year, f.month, f.day) {
          mismatch := true;
        }
      } else {
        if Less(f.year, metaYear) {
          mismatch := true;
        }
      }
    } else {
      noDate := true;
    }

    var status := Ok;
    assert noDate <==> Verdict(meta, f, flags.extensive) == NoDate;
    assert mismatch && !noDate <==> Verdict(meta, f, flags.extensive) == Mismatch;
    if mismatch || noDate {
      if mismatch {
        status := Mismatch;
      }
      if noDate {
        status := NoDate;
      }
      if flags.fix {
        var ok := disk.Save(name, SetTag(img.value, DateTimeOriginal, FixedStamp(f)));
        status := if ok then Fixed else ErrFix;
      }
    }
    row := Some(Row(status, name, fileDate, metaShown));
  }

  /** `process_images`: the header, the rule, then one step per entry. */
  method ProcessImages(disk: Disk, listing: seq<DirEntry>, flags: Flags, currentYear: int) returns (out: seq<Line>)
    modifies disk
    ensures disk.writable == old(disk.writable)
    ensures out == [Heading, Dashes(RuleWidth)] + Run(old(disk.files), disk.writable, listing, flags, currentYear).lines
    ensures disk.files == Run(old(disk.files), disk.writable, listing, flags, currentYear).files
  {
    out := [Heading, Dashes(RuleWidth)];
    var i := 0;
    while i < |listing|
      invariant 0 <= i <= |listing|
      invariant disk.writable == old(disk.writable)
      invariant out == [Heading, Dashes(RuleWidth)] + Run(old(disk.files), disk.writable, listing[..i], flags, currentYear).lines
      invariant disk.files == Run(old(disk.files), disk.writable, listing[..i], flags, currentYear).files
    {
      assert listing[..i + 1][..i] == listing[..i];
      var row := CheckFile(disk, listing[i], flags, currentYear);
      if row.Some? {
        out := out + [Report(row.value)];
      }
      i := i + 1;
    }
    assert listing[..|listing|] == listing;
  }
}
