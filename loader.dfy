/** `load_all`: consolidating every measurement file below a directory into one
    frame. The files with a `.csv`, `.xlsx` or `.xls` suffix, in any case, are
    read in sorted path order; each frame gets the capture date, the time-of-day
    slot and the track taken from its file name; the frames are concatenated.
    The recursive directory listing (`rglob("*")`) is the `listing` parameter. */
module Loader {
  import opened Wrappers
  import opened Text
  import opened Tables
  import Calendar
  import opened Timestamps
  import opened Tracks
  import opened Reader

  // ---------------------------------------------------------------------------
  // Selecting the files
  // ---------------------------------------------------------------------------

  /** The extension test of `load_all`. */
  predicate Eligible(p: Path) {
    var x := Suffix(Name(p));
    LowerEquals(x, ".csv") || LowerEquals(x, ".xlsx") || LowerEquals(x, ".xls")
  }

  /** The test is `p.suffix.lower() in (".csv", ".xlsx", ".xls")`; every
      spreadsheet is eligible. */
  lemma EligibleLower(p: Path)
    ensures Eligible(p) <==> Lower(Suffix(Name(p))) in [".csv", ".xlsx", ".xls"]
    ensures IsSpreadsheet(p) ==> Eligible(p)
  {
    LowerEqualsIff(Suffix(Name(p)), ".csv");
    LowerEqualsIff(Suffix(Name(p)), ".xlsx");
    LowerEqualsIff(Suffix(Name(p)), ".xls");
  }

  /** The listed paths that pass the extension test, in listing order. */
  function Candidates(listing: seq<Path>): (r: seq<Path>)
    ensures forall p :: p in r <==> p in listing && Eligible(p)
    ensures forall p :: multiset(r)[p] == if Eligible(p) then multiset(listing)[p] else 0
  {
    if |listing| == 0 then []
    else
      var init, p := listing[..|listing| - 1], listing[|listing| - 1];
      assert listing == init + [p];
      var rest := Candidates(init);
      if Eligible(p) then rest + [p] else rest
  }

  // ---------------------------------------------------------------------------
  // Sorting the paths
  // ---------------------------------------------------------------------------

  /** Python's `<` on strings: by code point at the first difference, a proper
      prefix first. */
  predicate StrBefore(a: string, b: string)
    decreases |a|
  {
    |b| > 0 && (|a| == 0 || a[0] < b[0] || (a[0] == b[0] && StrBefore(a[1..], b[1..])))
  }

  /** Python's `<` on the component lists that `PurePosixPath` compares. */
  predicate PartsBefore(a: seq<string>, b: seq<string>)
    decreases |a|
  {
    |b| > 0 && (|a| == 0 || StrBefore(a[0], b[0]) || (a[0] == b[0] && PartsBefore(a[1..], b[1..])))
  }

  predicate PathBefore(a: Path, b: Path) {
    PartsBefore(a.parts, b.parts)
  }

  lemma {:induction false} StrIrreflexive(a: string)
    ensures !StrBefore(a, a)
    decreases |a|
  {
    if |a| > 0 {
      StrIrreflexive(a[1..]);
    }
  }

  lemma {:induction false} StrTransitive(a: string, b: string, c: string)
    requires StrBefore(a, b) && StrBefore(b, c)
    ensures StrBefore(a, c)
    decreases |a|
  {
    if |a| > 0 && a[0] == b[0] && b[0] == c[0] {
      StrTransitive(a[1..], b[1..], c[1..]);
    }
  }

  lemma {:induction false} StrTotal(a: string, b: string)
    requires a != b
    ensures StrBefore(a, b) || StrBefore(b, a)
    decreases |a|
  {
    if |a| > 0 && |b| > 0 && a[0] == b[0] {
      assert a == [a[0]] + a[1..] && b == [b[0]] + b[1..];
      StrTotal(a[1..], b[1..]);
    }
  }

  lemma {:induction false} PartsIrreflexive(a: seq<string>)
    ensures !PartsBefore(a, a)
    decreases |a|
  {
    if |a| > 0 {
      StrIrreflexive(a[0]);
      PartsIrreflexive(a[1..]);
    }
  }

  lemma {:induction false} PartsTransitive(a: seq<string>, b: seq<string>, c: seq<string>)
    requires PartsBefore(a, b) && PartsBefore(b, c)
    ensures PartsBefore(a, c)
    decreases |a|
  {
    if |a| > 0 {
      StrIrreflexive(a[0]);
      StrIrreflexive(b[0]);
      if a[0] == b[0] && b[0] == c[0] {
        PartsTransitive(a[1..], b[1..], c[1..]);
      } else if StrBefore(a[0], b[0]) && StrBefore(b[0], c[0]) {
        StrTransitive(a[0], b[0], c[0]);
      }
    }
  }

  lemma {:induction false} PartsTotal(a: seq<string>, b: seq<string>)
    requires a != b
    ensures PartsBefore(a, b) || PartsBefore(b, a)
    decreases |a|
  {
    if |a| > 0 && |b| > 0 {
      if a[0] == b[0] {
        assert a == [a[0]] + a[1..] && b == [b[0]] + b[1..];
        PartsTotal(a[1..], b[1..]);
      } else {
        StrTotal(a[0], b[0]);
      }
    }
  }

  /** Each path comes no later than every path after it. */
  predicate Sorted(ps: seq<Path>) {
    forall i, j :: 0 <= i < j < |ps| ==> !PathBefore(ps[j], ps[i])
  }

  /** Places `x` before the first path that does not come before it. */
  function Insert(x: Path, s: seq<Path>): (r: seq<Path>)
    ensures multiset(r) == multiset(s) + multiset{x}
  {
    if |s| == 0 then [x]
    else if PathBefore(s[0], x) then
      assert s == [s[0]] + s[1..];
      [s[0]] + Insert(x, s[1..])
    else [x] + s
  }

  /** `sorted(paths)`. */
  function SortPaths(ps: seq<Path>): (r: seq<Path>)
    ensures multiset(r) == multiset(ps)
  {
    if |ps| == 0 then []
    else
      assert ps == [ps[0]] + ps[1..];
      Insert(ps[0], SortPaths(ps[1..]))
  }

  /** A path that does not come before `y` and is not `y` comes after it. */
  lemma NotBefore(x: Path, y: Path, z: Path)
    requires !PathBefore(x, y) && !PathBefore(y, z)
    ensures !PathBefore(x, z)
  {
    if PathBefore(x, z) && x.parts != y.parts {
      PartsTotal(x.parts, y.parts);
      PartsTransitive(y.parts, x.parts, z.parts);
    }
  }

  lemma {:induction false} InsertSorted(x: Path, s: seq<Path>)
    requires Sorted(s)
    ensures Sorted(Insert(x, s))
  {
    if |s| > 0 {
      if PathBefore(s[0], x) {
        var rest := s[1..];
        InsertSorted(x, rest);
        var r := Insert(x, rest);
        forall j | 0 <= j < |r| ensures !PathBefore(r[j], s[0]) {
          assert r[j] in multiset(r);
          if r[j] == x {
            if PathBefore(x, s[0]) {
              PartsTransitive(x.parts, s[0].parts, x.parts);
              PartsIrreflexive(x.parts);
            }
          } else {
            assert r[j] in multiset(rest);
            var m :| 0 <= m < |rest| && rest[m] == r[j];
            assert s[m + 1] == r[j];
          }
        }
        assert Insert(x, s) == [s[0]] + r;
      } else {
        forall j | 0 <= j < |s| ensures !PathBefore(s[j], x) {
          if j > 0 {
            NotBefore(s[j], s[0], x);
          }
        }
      }
    }
  }

  lemma {:induction false} SortPathsSorted(ps: seq<Path>)
    ensures Sorted(SortPaths(ps))
  {
    if |ps| > 0 {
      SortPathsSorted(ps[1..]);
      InsertSorted(ps[0], SortPaths(ps[1..]));
    }
  }

  /** The files `load_all` reads, in the order it reads them. */
  function Inputs(listing: seq<Path>): seq<Path> {
    SortPaths(Candidates(listing))
  }

  /** The files are read in sorted order, each listed eligible path as often as
      it is listed, and no other path. */
  lemma InputsOrder(listing: seq<Path>)
    ensures Sorted(Inputs(listing))
    ensures forall p :: p in Inputs(listing) <==> p in listing && Eligible(p)
    ensures forall p :: multiset(Inputs(listing))[p] == if Eligible(p) then multiset(listing)[p] else 0
  {
    SortPathsSorted(Candidates(listing));
    forall p ensures p in Inputs(listing) <==> p in listing && Eligible(p) {
      assert p in Inputs(listing) <==> p in multiset(Inputs(listing));
      assert p in Candidates(listing) <==> p in multiset(Candidates(listing));
    }
  }

  // ---------------------------------------------------------------------------
  // Tagging one frame
  // ---------------------------------------------------------------------------

  /** The text `YYYY-MM-DD` with digits in place of the letters. */
  predicate DateShaped(d: string) {
    |d| == 10 && d[4] == '-' && d[7] == '-'
    && forall k :: 0 <= k < 10 && k != 4 && k != 7 ==> IsDigit(d[k])
  }

  /** The day written in such a text, at midnight. */
  function Midnight(d: string): Calendar.WallClock
    requires DateShaped(d)
  {
    Calendar.WallClock(100 * TwoDigits(d[0], d[1]) + TwoDigits(d[2], d[3]),
                       TwoDigits(d[5], d[6]), TwoDigits(d[8], d[9]), 0, 0)
  }

  /** `pd.to_datetime(d).date()`: the day, or `None` where pandas raises because
      the day does not exist or lies outside the nanosecond timestamp range. */
  function ToDate(d: string): Option<Cell>
    requires DateShaped(d)
  {
    var t := Midnight(d);
    if Calendar.Representable(t) then Some(Day(t.year, t.month, t.day)) else None
  }

  /** The date text extracted from a name has the `YYYY-MM-DD` shape. */
  lemma ExtractedDateShaped(name: string)
    requires ExtractInfo(name).date.Some?
    ensures DateShaped(ExtractInfo(name).date.value)
  {
    var i := FindToken(name).value;
    var d, digits := ExtractInfo(name).date.value, name[i..i + 8];
    forall k | 0 <= k < 10 && k != 4 && k != 7 ensures IsDigit(d[k]) {
      var m := if k < 4 then k else if k < 7 then k - 1 else k - 2;
      assert (d[..4] + d[5..7] + d[8..])[m] == d[k];
      assert digits[m] == name[i + m];
    }
  }

  /** Why `load_all` raises. */
  datatype LoadError =
    | NoInputFiles          // the `assert paths` of the source
    | ReadFailed(e: ReadError)
    | BadDate(path: Path)   // `pd.to_datetime` raises on the date of the name

  /** The `date` cell of a file's rows. */
  function DateCell(p: Path): Result<Cell, LoadError> {
    var info := ExtractInfo(Name(p));
    if info.date.None? then Ok(Missing)
    else
      ExtractedDateShaped(Name(p));
      match ToDate(info.date.value)
      case None => Err(BadDate(p))
      case Some(c) => Ok(c)
  }

  /** The `M_slot` cell: the slot name, or missing when the name holds no token. */
  function SlotCell(s: Option<Slot>): Cell {
    if s.None? then Missing else Str(SlotName(s.value))
  }

  /** The `track_id` cell: the track name, or missing. */
  function TrackCell(t: Option<Track>): Cell {
    if t.None? then Missing else Str(TrackName(t.value))
  }

  const DateColumn := "date"
  const SlotColumn := "M_slot"
  const TrackColumn := "track_id"

  /** The three column assignments of the loop body, in order. */
  function Tagged(df: Table, date: Cell, slot: Cell, track: Cell): Table {
    SetColumn(SetColumn(SetColumn(df, DateColumn, date), SlotColumn, slot), TrackColumn, track)
  }

  /** Tagging the frame read from `p` with what its name tells. */
  function TagFile(df: Table, p: Path): Result<Table, LoadError> {
    match DateCell(p)
    case Err(e) => Err(e)
    case Ok(date) =>
      Ok(Tagged(df, date, SlotCell(ExtractInfo(Name(p)).slot), TrackCell(InferTrackFromFilename(Name(p)))))
  }

  /** The body of the loop of `load_all` for one path: read it, then tag it. */
  function LoadOne(p: Path, disk: Disk): (r: Result<Table, LoadError>)
    ensures r.Err? ==> r.error != NoInputFiles
    ensures r.Ok? ==> ReadSpec(p, disk).Ok? && |r.value.rows| == |ReadSpec(p, disk).value.rows|
  {
    match ReadSpec(p, disk)
    case Err(e) => Err(ReadFailed(e))
    case Ok(df) => TagFile(df, p)
  }

  /** `LoadOne` for one set of files. */
  function Loading(disk: Disk): Path -> Result<Table, LoadError> {
    p => LoadOne(p, disk)
  }

  /** The frames `load` gives for the paths, in order, stopping at the first path
      whose loading raises. */
  function {:induction false} Frames(ps: seq<Path>, load: Path -> Result<Table, LoadError>): (r: Result<seq<Table>, LoadError>)
    ensures r.Ok? <==> forall k :: 0 <= k < |ps| ==> load(ps[k]).Ok?
    ensures r.Ok? ==> |r.value| == |ps| && forall k :: 0 <= k < |ps| ==> load(ps[k]) == Ok(r.value[k])
    ensures r.Err? ==> exists k :: (&& 0 <= k < |ps|
                                    && load(ps[k]) == Err(r.error)
                                    && forall j :: 0 <= j < k ==> load(ps[j]).Ok?)
  {
    if |ps| == 0 then Ok([])
    else
      var init := ps[..|ps| - 1];
      assert forall k :: 0 <= k < |init| ==> init[k] == ps[k];
      match Frames(init, load)
      case Err(e) => Err(e)
      case Ok(fs) =>
        match load(ps[|ps| - 1])
        case Err(e) => Err(e)
        case Ok(df) => Ok(fs + [df])
  }

  /** When every path before `k` loads and path `k` does not, loading the list
      raises what path `k` raises. */
  lemma {:induction false} FirstFailure(ps: seq<Path>, load: Path -> Result<Table, LoadError>, k: nat)
    requires k < |ps| && Frames(ps[..k], load).Ok? && load(ps[k]).Err?
    ensures Frames(ps, load) == Err(load(ps[k]).error)
    decreases |ps|
  {
    var init := ps[..|ps| - 1];
    if k == |ps| - 1 {
      assert ps[..k] == init;
    } else {
      assert init[..k] == ps[..k] && init[k] == ps[k];
      FirstFailure(init, load, k);
    }
  }

  /** Loading one more path that loads appends its frame. */
  lemma FramesExtend(ps: seq<Path>, load: Path -> Result<Table, LoadError>, k: nat, fs: seq<Table>, df: Table)
    requires k < |ps| && Frames(ps[..k], load) == Ok(fs) && load(ps[k]) == Ok(df)
    ensures Frames(ps[..k + 1], load) == Ok(fs + [df])
  {
    assert ps[..k + 1][..k] == ps[..k];
  }

  /** What `load_all(data_dir)` returns or raises, `listing` being what
      `data_dir.rglob("*")` yields. */
  function LoadSpec(listing: seq<Path>, disk: Disk): Result<Table, LoadError> {
    var paths := Inputs(listing);
    if |paths| == 0 then Err(NoInputFiles)
    else
      match Frames(paths, Loading(disk))
      case Err(e) => Err(e)
      case Ok(fs) => Ok(Concat(fs))
  }

  /** One pass of the loop of `load_all`: read the file, then assign the date,
      the slot and the track taken from its name. */
  method LoadFile(p: Path, disk: Disk) returns (r: Result<Table, LoadError>)
    ensures r == LoadOne(p, disk)
  {
    var read := ReadAny(p, disk);
    if read.Err? {
      return Err(ReadFailed(read.error));
    }
    var df := read.value;
    var info := ExtractInfo(Name(p));
    var date := Missing;
    if info.date.Some? {
      ExtractedDateShaped(Name(p));
      var day := ToDate(info.date.value);
      if day.None? {
        return Err(BadDate(p));
      }
      date := day.value;
    }
    df := SetColumn(df, DateColumn, date);
    df := SetColumn(df, SlotColumn, SlotCell(info.slot));
    var trk := InferTrackFromFilename(Name(p));
    df := SetColumn(df, TrackColumn, TrackCell(trk));
    return Ok(df);
  }

  /** The loop of `load_all`: load the paths one after the other, stopping at
      the first that raises. */
  method LoadFiles(paths: seq<Path>, disk: Disk) returns (r: Result<seq<Table>, LoadError>)
    ensures r == Frames(paths, Loading(disk))
  {
    var frames: seq<Table> := [];
    var k := 0;
    while k < |paths|
      invariant 0 <= k <= |paths|
      invariant Frames(paths[..k], Loading(disk)) == Ok(frames)
    {
      var loaded := LoadFile(paths[k], disk);
      assert Loading(disk)(paths[k]) == loaded;
      if loaded.Err? {
        FirstFailure(paths, Loading(disk), k);
        return Err(loaded.error);
      }
      FramesExtend(paths, Loading(disk), k, frames, loaded.value);
      frames := frames + [loaded.value];
      k := k + 1;
    }
    assert paths[..k] == paths;
    r := Ok(frames);
  }

  /** `load_all(data_dir)`. */
  method LoadAll(listing: seq<Path>, disk: Disk) returns (r: Result<Table, LoadError>)
    ensures r == LoadSpec(listing, disk)
  {
    var paths := SortPaths(Candidates(listing));
    if |paths| == 0 {
      return Err(NoInputFiles);
    }
    var frames := LoadFiles(paths, disk);
    if frames.Err? {
      return Err(frames.error);
    }
    r := Ok(Concat(frames.value));
  }

  // ---------------------------------------------------------------------------
  // Properties of load_all
  // ---------------------------------------------------------------------------

  /** `load_all` raises `NoInputFiles` exactly when no listed path has an
      accepted suffix, whatever the files hold: it stops before reading any. */
  lemma NoInputFilesIff(listing: seq<Path>, disk: Disk)
    ensures LoadSpec(listing, disk) == Err(NoInputFiles) <==> forall p :: p in listing ==> !Eligible(p)
  {
    var c := Candidates(listing);
    if |c| > 0 {
      assert c[0] in multiset(Inputs(listing));
    }
    if |Inputs(listing)| == 0 {
      assert |multiset(c)| == 0;
    } else {
      var fs := Frames(Inputs(listing), Loading(disk));
      if fs.Err? {
        var k :| 0 <= k < |Inputs(listing)| && Loading(disk)(Inputs(listing)[k]) == Err(fs.error);
      }
    }
  }

  /** A file is read and tagged, or raises, in this order: a read failure wins
      over a bad date; a bad date is reported only for a name whose token gives
      a date text. */
  lemma LoadOneOutcome(p: Path, disk: Disk)
    ensures ReadSpec(p, disk).Err? ==> LoadOne(p, disk) == Err(ReadFailed(ReadSpec(p, disk).error))
    ensures LoadOne(p, disk) == Err(BadDate(p)) <==>
      ReadSpec(p, disk).Ok? && ExtractInfo(Name(p)).date.Some? && DateCell(p).Err?
    ensures (forall j :: !TokenAt(Name(p), j)) ==> DateCell(p) == Ok(Missing)
  {
  }

  /** The day stored for a name is the day written in its token, and it is
      refused exactly when that day at midnight is no nanosecond timestamp. */
  lemma DateCellOfToken(p: Path)
    requires FindToken(Name(p)).Some?
    ensures var t := WallClockAt(Name(p), FindToken(Name(p)).value);
      && (DateCell(p).Ok? <==> Calendar.Representable(Calendar.WallClock(t.year, t.month, t.day, 0, 0)))
      && (DateCell(p).Ok? ==> DateCell(p).value == Day(t.year, t.month, t.day))
  {
    var name := Name(p);
    var i := FindToken(name).value;
    var d := ExtractInfo(name).date.value;
    ExtractedDateShaped(name);
    var digits := name[i..i + 8];
    var joined := d[..4] + d[5..7] + d[8..];
    assert joined == digits;
    assert d[0] == name[i] && d[1] == name[i + 1] && d[2] == name[i + 2] && d[3] == name[i + 3] by {
      assert joined[0] == d[0] && joined[1] == d[1] && joined[2] == d[2] && joined[3] == d[3];
    }
    assert d[5] == name[i + 4] && d[6] == name[i + 5] && d[8] == name[i + 6] && d[9] == name[i + 7] by {
      assert joined[4] == d[5] && joined[5] == d[6] && joined[6] == d[8] && joined[7] == d[9];
    }
  }

  /** Tagging keeps a frame well formed. */
  lemma TaggedWf(df: Table, date: Cell, slot: Cell, track: Cell)
    requires Wf(df)
    ensures Wf(Tagged(df, date, slot, track))
  {
    var s := SetColumn(df, DateColumn, date);
    SetColumnWf(df, DateColumn, date);
    SetColumnWf(s, SlotColumn, slot);
    SetColumnWf(SetColumn(s, SlotColumn, slot), TrackColumn, track);
  }

  /** Tagging adds or overwrites the three columns and keeps every other cell
      and the row count. */
  lemma TaggedColumns(df: Table, date: Cell, slot: Cell, track: Cell)
    ensures var t := Tagged(df, date, slot, track);
      && |t.rows| == |df.rows|
      && ColumnSet(t.columns) == ColumnSet(df.columns) + {DateColumn, SlotColumn, TrackColumn}
      && (forall i :: 0 <= i < |t.rows| ==>
            && DateColumn in t.rows[i] && t.rows[i][DateColumn] == date
            && SlotColumn in t.rows[i] && t.rows[i][SlotColumn] == slot
            && TrackColumn in t.rows[i] && t.rows[i][TrackColumn] == track)
      && (forall i, c :: 0 <= i < |t.rows| && c in df.rows[i] && c != DateColumn && c != SlotColumn && c != TrackColumn ==>
            c in t.rows[i] && t.rows[i][c] == df.rows[i][c])
  {
    var t := Tagged(df, date, slot, track);
    forall i | 0 <= i < |t.rows|
      ensures t.rows[i] == df.rows[i][DateColumn := date][SlotColumn := slot][TrackColumn := track]
    {
    }
  }


  /** A successful load is the concatenation of the frames of the files read. */
  lemma LoadSpecOk(listing: seq<Path>, disk: Disk)
    requires LoadSpec(listing, disk).Ok?
    ensures |Inputs(listing)| > 0 && Frames(Inputs(listing), Loading(disk)).Ok?
    ensures LoadSpec(listing, disk).value == Concat(Frames(Inputs(listing), Loading(disk)).value)
  {
  }

  /** The concatenation holds, one file after another in reading order, every
      row of every file read: as many rows as those files hold together. */
  lemma LoadedRowCount(ps: seq<Path>, disk: Disk, fs: seq<Table>)
    requires Frames(ps, Loading(disk)) == Ok(fs) && |ps| > 0
    ensures |fs| == |ps|
    ensures |Concat(fs).rows| == TotalRows(fs)
    ensures forall k :: 0 <= k < |ps| ==> ReadSpec(ps[k], disk).Ok? && |fs[k].rows| == |ReadSpec(ps[k], disk).value.rows|
  {
    ConcatRowCount(fs);
    forall k | 0 <= k < |ps| ensures ReadSpec(ps[k], disk).Ok? && |fs[k].rows| == |ReadSpec(ps[k], disk).value.rows| {
      assert Loading(disk)(ps[k]) == LoadOne(ps[k], disk);
    }
  }


  /** The frame loaded for a file is well formed and carries that file's name,
      date, slot and track in every row. */
  lemma LoadedFrame(p: Path, disk: Disk)
    requires DiskWf(disk) && LoadOne(p, disk).Ok?
    ensures var t := LoadOne(p, disk).value;
      && Wf(t)
      && |t.rows| == |ReadSpec(p, disk).value.rows|
      && forall i :: 0 <= i < |t.rows| ==>
           && SourceColumn in t.rows[i] && t.rows[i][SourceColumn] == Str(Name(p))
           && DateColumn in t.rows[i] && t.rows[i][DateColumn] == DateCell(p).value
           && SlotColumn in t.rows[i] && t.rows[i][SlotColumn] == SlotCell(ExtractInfo(Name(p)).slot)
           && TrackColumn in t.rows[i] && t.rows[i][TrackColumn] == TrackCell(InferTrackFromFilename(Name(p)))
  {
    SourceColumnAdded(p, disk);
    TaggedFile(ReadSpec(p, disk).value, p);
  }

  /** `TaggedColumns` for the cells a file name gives. */
  lemma TaggedFile(df: Table, p: Path)
    requires Wf(df) && TagFile(df, p).Ok?
    ensures var t := TagFile(df, p).value;
      && Wf(t)
      && |t.rows| == |df.rows|
      && forall i :: 0 <= i < |t.rows| ==>
           && DateColumn in t.rows[i] && t.rows[i][DateColumn] == DateCell(p).value
           && SlotColumn in t.rows[i] && t.rows[i][SlotColumn] == SlotCell(ExtractInfo(Name(p)).slot)
           && TrackColumn in t.rows[i] && t.rows[i][TrackColumn] == TrackCell(InferTrackFromFilename(Name(p)))
           && forall c :: c in df.rows[i] && c != DateColumn && c != SlotColumn && c != TrackColumn ==>
                c in t.rows[i] && t.rows[i][c] == df.rows[i][c]
  {
    var date, slot, track := DateCell(p).value, SlotCell(ExtractInfo(Name(p)).slot), TrackCell(InferTrackFromFilename(Name(p)));
    TaggedWf(df, date, slot, track);
    TaggedColumns(df, date, slot, track);
  }

  /** The frames of files that all load are well formed. */
  lemma FramesWf(ps: seq<Path>, disk: Disk, fs: seq<Table>)
    requires DiskWf(disk) && Frames(ps, Loading(disk)) == Ok(fs)
    ensures AllWf(fs)
  {
    forall m | 0 <= m < |fs| ensures Wf(fs[m]) {
      assert Loading(disk)(ps[m]) == LoadOne(ps[m], disk);
      LoadedFrame(ps[m], disk);
    }
  }

  /** Row `j` of the `k`-th file read is row `TotalRows(fs[..k]) + j` of the
      concatenation, and carries that file's name, date, slot and track and the
      cells read from the file. */
  lemma LoadedRow(ps: seq<Path>, disk: Disk, fs: seq<Table>, k: nat, j: nat)
    requires DiskWf(disk) && Frames(ps, Loading(disk)) == Ok(fs) && |ps| > 0
    requires k < |ps| && j < |fs[k].rows|
    ensures TotalRows(fs[..k]) + j < |Concat(fs).rows|
    ensures var p, row := ps[k], Concat(fs).rows[TotalRows(fs[..k]) + j];
      && SourceColumn in row && row[SourceColumn] == Str(Name(p))
      && DateColumn in row && row[DateColumn] == DateCell(p).value
      && SlotColumn in row && row[SlotColumn] == SlotCell(ExtractInfo(Name(p)).slot)
      && TrackColumn in row && row[TrackColumn] == TrackCell(InferTrackFromFilename(Name(p)))
      && forall c :: c in fs[k].columns ==> c in row && c in fs[k].rows[j] && row[c] == fs[k].rows[j][c]
  {
    FramesWf(ps, disk, fs);
    assert Loading(disk)(ps[k]) == LoadOne(ps[k], disk);
    assert LoadOne(ps[k], disk) == Ok(fs[k]);
    LoadedFrame(ps[k], disk);
    var t := fs[k];
    assert SourceColumn in t.rows[j];
    assert Wf(t);
    assert t.rows[j].Keys == ColumnSet(t.columns);
    assert SourceColumn in t.columns;
    ConcatRow(fs, k, j);
    var row := Concat(fs).rows[TotalRows(fs[..k]) + j];
    assert row[SourceColumn] == t.rows[j][SourceColumn];
  }
}
