/** `read_any`: reading one measurement file into a frame. Spreadsheets go to the
    Excel reader; every other file is tried as delimited text with `,`, then `;`,
    then a tab, and the first attempt that gives at least five columns is kept.
    The file reads themselves (`pd.read_csv`, `pd.read_excel`) are the `Disk`
    parameter: what each would return, or that it would raise. */
module Reader {
  import opened Wrappers
  import opened Text
  import opened Tables

  // ---------------------------------------------------------------------------
  // Paths
  // ---------------------------------------------------------------------------

  /** A filesystem path as its components (`Path.parts`). */
  datatype Path = Path(parts: seq<string>)

  /** `p.name`: the last component. */
  function Name(p: Path): (r: string)
    ensures |p.parts| > 0 ==> r == p.parts[|p.parts| - 1]
  {
    if |p.parts| == 0 then "" else p.parts[|p.parts| - 1]
  }

  /** `s.rfind(c)`: the last position of `c` in `s`, or -1. */
  function RFind(s: string, c: char): (r: int)
    ensures -1 <= r < |s|
    ensures 0 <= r ==> s[r] == c
    ensures forall j :: r < j < |s| ==> s[j] != c
    decreases |s|
  {
    if |s| == 0 then -1
    else if s[|s| - 1] == c then |s| - 1
    else RFind(s[..|s| - 1], c)
  }

  /** `PurePath.suffix` of a name: from its last dot to the end, provided that
      dot is neither the first nor the last character; otherwise empty. */
  function Suffix(name: string): (r: string)
    ensures r != [] ==> 2 <= |r| < |name| && r == name[|name| - |r|..] && r[0] == '.'
    ensures r != [] ==> forall j :: 1 <= j < |r| ==> r[j] != '.'
    ensures r == [] <==> forall i :: 0 < i < |name| - 1 && name[i] == '.' ==> '.' in name[i + 1..]
  {
    var i := RFind(name, '.');
    if 0 < i < |name| - 1 then
      assert name[i + 1..][|name| - i - 2] == name[|name| - 1];
      name[i..]
    else
      forall j | 0 < j < |name| - 1 && name[j] == '.' ensures '.' in name[j + 1..] {
        assert name[j + 1..][i - j - 1] == name[i];
      }
      []
  }

  /** A non-empty stem followed by a dot and a dot-free, non-empty extension has
      that extension as its suffix. */
  lemma SuffixOfExtension(stem: string, ext: string)
    requires |stem| > 0 && |ext| >= 2 && ext[0] == '.' && '.' !in ext[1..]
    ensures Suffix(stem + ext) == ext
  {
    var name := stem + ext;
    assert name[|stem|] == '.';
    assert name[|stem| + 1..] == ext[1..];
    assert name[|stem|..] == ext;
  }

  /** The extension test of `read_any`: `.xlsx` or `.xls`, in any case. */
  predicate IsSpreadsheet(p: Path) {
    var x := Suffix(Name(p));
    LowerEquals(x, ".xlsx") || LowerEquals(x, ".xls")
  }

  /** The test is `p.suffix.lower() in (".xlsx", ".xls")`. */
  lemma IsSpreadsheetLower(p: Path)
    ensures IsSpreadsheet(p) <==> Lower(Suffix(Name(p))) in [".xlsx", ".xls"]
  {
    LowerEqualsIff(Suffix(Name(p)), ".xlsx");
    LowerEqualsIff(Suffix(Name(p)), ".xls");
  }

  // ---------------------------------------------------------------------------
  // The readers
  // ---------------------------------------------------------------------------

  /** The separators `read_any` tries, in this order. */
  datatype Sep = Comma | Semicolon | Tab

  function SepChar(s: Sep): char {
    match s
    case Comma => ','
    case Semicolon => ';'
    case Tab => '\t'
  }

  const Separators: seq<Sep> := [Comma, Semicolon, Tab]

  /** What a pandas reader does with a file: raises, or returns a frame. */
  datatype Parse = Raised | Parsed(table: Table)

  /** `csv(p, sep)` is `pd.read_csv(p, sep=sep)`; `excel(p)` is `pd.read_excel(p)`. */
  datatype Disk = Disk(csv: (Path, Sep) -> Parse, excel: Path -> Parse)

  /** pandas returns well-formed frames. */
  ghost predicate DiskWf(disk: Disk) {
    && (forall p, s :: disk.csv(p, s).Parsed? ==> Wf(disk.csv(p, s).table))
    && (forall p :: disk.excel(p).Parsed? ==> Wf(disk.excel(p).table))
  }

  /** An attempt that is kept: it did not raise and has at least five columns. */
  predicate Usable(r: Parse) {
    r.Parsed? && |r.table.columns| >= 5
  }

  /** The first separator, from position `k` on, whose attempt is kept. */
  function FirstUsable(p: Path, disk: Disk, k: nat): (r: Option<nat>)
    requires k <= |Separators|
    ensures r.None? <==> forall j :: k <= j < |Separators| ==> !Usable(disk.csv(p, Separators[j]))
    ensures r.Some? ==> k <= r.value < |Separators| && Usable(disk.csv(p, Separators[r.value]))
    ensures r.Some? ==> forall j :: k <= j < r.value ==> !Usable(disk.csv(p, Separators[j]))
    decreases |Separators| - k
  {
    if k == |Separators| then None
    else if Usable(disk.csv(p, Separators[k])) then Some(k)
    else FirstUsable(p, disk, k + 1)
  }

  /** Why `read_any` raises: no separator gave a usable frame (the `ValueError`
      of the source), or the Excel reader raised. */
  datatype ReadError = Unreadable(path: Path) | SpreadsheetRaised(path: Path)

  /** The column `read_any` adds. */
  const SourceColumn := "__source_file"

  function WithSource(t: Table, p: Path): Table {
    SetColumn(t, SourceColumn, Str(Name(p)))
  }

  /** What `read_any(p)` returns or raises. */
  function ReadSpec(p: Path, disk: Disk): Result<Table, ReadError> {
    if IsSpreadsheet(p) then
      match disk.excel(p)
      case Raised => Err(SpreadsheetRaised(p))
      case Parsed(t) => Ok(WithSource(t, p))
    else
      match FirstUsable(p, disk, 0)
      case None => Err(Unreadable(p))
      case Some(k) => Ok(WithSource(disk.csv(p, Separators[k]).table, p))
  }

  /** `read_any(p)`. */
  method ReadAny(p: Path, disk: Disk) returns (r: Result<Table, ReadError>)
    ensures r == ReadSpec(p, disk)
  {
    if IsSpreadsheet(p) {
      var parsed := disk.excel(p);
      if parsed.Raised? {
        return Err(SpreadsheetRaised(p));
      }
      return Ok(WithSource(parsed.table, p));
    }
    var df: Option<Table> := None;
    var k := 0;
    while k < |Separators|
      invariant 0 <= k <= |Separators|
      invariant forall j :: 0 <= j < k ==> !Usable(disk.csv(p, Separators[j]))
    {
      var temp := disk.csv(p, Separators[k]);
      if temp.Parsed? && |temp.table.columns| >= 5 {
        df := Some(temp.table);
        break;
      }
      k := k + 1;
    }
    if df.None? {
      return Err(Unreadable(p));
    }
    FirstUsableIs(p, disk, k);
    r := Ok(WithSource(df.value, p));
  }

  /** A separator whose attempt is kept, with none kept before it, is the one
      chosen. */
  lemma FirstUsableIs(p: Path, disk: Disk, k: nat)
    requires k < |Separators| && Usable(disk.csv(p, Separators[k]))
    requires forall j :: 0 <= j < k ==> !Usable(disk.csv(p, Separators[j]))
    ensures FirstUsable(p, disk, 0) == Some(k)
  {
  }

  // ---------------------------------------------------------------------------
  // Properties of read_any
  // ---------------------------------------------------------------------------

  /** A text file raises exactly when no separator gives a usable frame;
      otherwise the frame is that of the first separator that does. */
  lemma TextFileOutcome(p: Path, disk: Disk)
    requires !IsSpreadsheet(p)
    ensures ReadSpec(p, disk).Err? <==> forall j :: 0 <= j < |Separators| ==> !Usable(disk.csv(p, Separators[j]))
    ensures ReadSpec(p, disk).Err? ==> ReadSpec(p, disk).error == Unreadable(p)
    ensures ReadSpec(p, disk).Ok? ==>
      exists k :: (&& 0 <= k < |Separators|
                   && Usable(disk.csv(p, Separators[k]))
                   && (forall j :: 0 <= j < k ==> !Usable(disk.csv(p, Separators[j])))
                   && ReadSpec(p, disk).value == WithSource(disk.csv(p, Separators[k]).table, p))
  {
    if ReadSpec(p, disk).Ok? {
      var k := FirstUsable(p, disk, 0).value;
      assert Usable(disk.csv(p, Separators[k]));
    }
  }

  /** An attempt that succeeds with fewer than five columns does not stop the
      search: the semicolon frame is kept after a narrow comma frame. */
  lemma NarrowFrameSkipped(p: Path, disk: Disk)
    requires !IsSpreadsheet(p)
    requires disk.csv(p, Comma).Parsed? && |disk.csv(p, Comma).table.columns| < 5
    requires Usable(disk.csv(p, Semicolon))
    ensures ReadSpec(p, disk) == Ok(WithSource(disk.csv(p, Semicolon).table, p))
  {
    FirstUsableIs(p, disk, 1);
  }

  /** A spreadsheet is read once by the Excel reader, whatever its column count,
      and never as text. */
  lemma SpreadsheetOutcome(p: Path, disk: Disk, disk': Disk)
    requires IsSpreadsheet(p) && disk'.excel(p) == disk.excel(p)
    ensures ReadSpec(p, disk) == ReadSpec(p, disk')
    ensures ReadSpec(p, disk).Err? <==> disk.excel(p).Raised?
    ensures disk.excel(p).Parsed? ==> ReadSpec(p, disk) == Ok(WithSource(disk.excel(p).table, p))
  {
  }

  /** The frame returned is the parsed one with one more column: every row gets
      the file name under `__source_file`, keeps its other cells, and no row is
      added or dropped. */
  lemma SourceColumnAdded(p: Path, disk: Disk)
    requires DiskWf(disk)
    requires ReadSpec(p, disk).Ok?
    ensures var t := ReadSpec(p, disk).value;
      && Wf(t)
      && SourceColumn in t.columns
      && forall i :: 0 <= i < |t.rows| ==> t.rows[i][SourceColumn] == Str(Name(p))
  {
    var t := ReadSpec(p, disk).value;
    if IsSpreadsheet(p) {
      SetColumnWf(disk.excel(p).table, SourceColumn, Str(Name(p)));
    } else {
      var k := FirstUsable(p, disk, 0).value;
      SetColumnWf(disk.csv(p, Separators[k]).table, SourceColumn, Str(Name(p)));
    }
  }
}
