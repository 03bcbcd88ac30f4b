/** The invalid-date resetter (`reset_invalid_metadata`): for each JPEG
    whose capture-time year is before 1980, report it and, unless in dry-run
    mode, delete that tag. Every failure inside the per-file block is
    swallowed without a row. */
module Reset {
  import opened Wrappers
  import opened Strings
  import opened Photos

  /** `[WOULD RESET]` in dry-run mode, `[RESET DONE]` once deleted. */
  datatype Action = WouldReset | ResetDone

  /** One printed row: action, file name, detected year. */
  datatype Row = Row(action: Action, filename: string, year: int)

  /** The printed output: the dry-run notice, the column header, the rule of
      dashes, the rows. */
  datatype Line = DryRunNotice | Heading | Dashes(width: nat) | Report(row: Row)

  /** The width of the rule under the header. */
  const RuleWidth: nat := 65

  /** Capture-time years before this one are taken to be impossible. */
  const Cutoff: int := 1980

  /** `int(meta_date_raw.split(':')[0])`, or nothing where `int()` raises. */
  function YearOf(raw: string): Option<int> {
    ParseInt(FirstField(raw, ':'))
  }

  /** The result of one entry: the row printed, if any, and the photo written
      back, if a write succeeded. */
  datatype Outcome = Outcome(row: Option<Row>, written: Option<Photo>)

  /** The specification of one iteration of the loop. */
  function ResetFile(files: map<string, Photo>, writable: set<string>, name: string, dryRun: bool): Outcome {
    if !IsJpegName(name) then Outcome(None, None)
    else
      match Load(files, name)
      case None => Outcome(None, None)
      case Some(img) =>
        match GetTag(img, DateTimeOriginal)
        case None => Outcome(None, None)
        case Some(raw) =>
          match YearOf(raw)
          case None => Outcome(None, None)
          case Some(year) =>
            if year >= Cutoff then Outcome(None, None)
            else if dryRun then Outcome(Some(Row(WouldReset, name, year)), None)
            else if name in writable then Outcome(Some(Row(ResetDone, name, year)), Some(DeleteTag(img, DateTimeOriginal)))
            else Outcome(None, None)
  }

  /** What a run has printed (after the header) and the directory it leaves. */
  datatype RunState = RunState(lines: seq<Line>, files: map<string, Photo>)

  /** The specification of the loop: the entries one after the other, in
      listing order. */
  function Run(files: map<string, Photo>, writable: set<string>, listing: seq<string>, dryRun: bool): RunState
    decreases |listing|
  {
    if |listing| == 0 then RunState([], files)
    else
      var before := Run(files, writable, listing[..|listing| - 1], dryRun);
      var name := listing[|listing| - 1];
      var o := ResetFile(before.files, writable, name, dryRun);
      RunState(before.lines + (if o.row.Some? then [Report(o.row.value)] else []),
               Apply(before.files, name, o.written))
  }

  /** The body of the loop. */
  method ResetEntry(disk: Disk, name: string, dryRun: bool) returns (row: Option<Row>)
    modifies disk
    ensures disk.writable == old(disk.writable)
    ensures row == ResetFile(old(disk.files), disk.writable, name, dryRun).row
    ensures disk.files == Apply(old(disk.files), name, ResetFile(old(disk.files), disk.writable, name, dryRun).written)
  {
    row := None;
    if !IsJpegName(name) {
      return;
    }
    var img := disk.Open(name);
    if img.None? {
      return;
    }
    if img.value.hasExif && DateTimeOriginal in img.value.tags {
      var raw := img.value.tags[DateTimeOriginal];
      var year := ParseInt(FirstField(raw, ':'));
      if year.None? {
        return;
      }
      if year.value < Cutoff {
        if dryRun {
          row := Some(Row(WouldReset, name, year.value));
        } else {
          var ok := disk.Save(name, DeleteTag(img.value, DateTimeOriginal));
          if ok {
            row := Some(Row(ResetDone, name, year.value));
          }
        }
      }
    }
  }

  /** `reset_invalid_metadata`: the header, the rule, then one step per
      entry. */
  method ResetInvalidMetadata(disk: Disk, listing: seq<string>, dryRun: bool) returns (out: seq<Line>)
    modifies disk
    ensures disk.writable == old(disk.writable)
    ensures out == [Heading, Dashes(RuleWidth)] + Run(old(disk.files), disk.writable, listing, dryRun).lines
    ensures disk.files == Run(old(disk.files), disk.writable, listing, dryRun).files
  {
    out := [Heading, Dashes(RuleWidth)];
    var i := 0;
    while i < |listing|
      invariant 0 <= i <= |listing|
      invariant disk.writable == old(disk.writable)
      invariant out == [Heading, Dashes(RuleWidth)] + Run(old(disk.files), disk.writable, listing[..i], dryRun).lines
      invariant disk.files == Run(old(disk.files), disk.writable, listing[..i], dryRun).files
    {
      assert listing[..i + 1][..i] == listing[..i];
      var row := ResetEntry(disk, listing[i], dryRun);
      if row.Some? {
        out := out + [Report(row.value)];
      }
      i := i + 1;
    }
    assert listing[..|listing|] == listing;
  }

  /** The command line: `--execute` turns dry-run off; without it the notice
      comes first. */
  method ResetCommand(disk: Disk, listing: seq<string>, execute: bool) returns (out: seq<Line>)
    modifies disk
    ensures disk.writable == old(disk.writable)
    ensures out == (if execute then [] else [DryRunNotice])
                   + [Heading, Dashes(RuleWidth)] + Run(old(disk.files), disk.writable, listing, !execute).lines
    ensures disk.files == Run(old(disk.files), disk.writable, listing, !execute).files
  {
    var notice := if execute then [] else [DryRunNotice];
    var table := ResetInvalidMetadata(disk, listing, !execute);
    out := notice + table;
  }
}
