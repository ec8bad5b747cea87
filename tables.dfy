/** The part of a pandas `DataFrame` that the loader relies on: an ordered list of
    column labels and a list of rows, each row giving a cell for every label. The
    frames the loader builds are fresh and never shared, so an assignment
    `df[name] = v` is modelled as computing the new frame value. */
module Tables {

  /** A cell: absent (`None`/`NaN`), a string, a calendar day (a `datetime.date`),
      or a value read from a file, which the loader carries through unchanged. */
  datatype Cell = Missing | Str(s: string) | Day(year: int, month: int, day: int) | Datum(raw: string)

  type Row = map<string, Cell>

  datatype Table = Table(columns: seq<string>, rows: seq<Row>)

  function ColumnSet(cols: seq<string>): set<string> {
    set c | c in cols
  }

  predicate Distinct(cols: seq<string>) {
    forall i, j :: 0 <= i < j < |cols| ==> cols[i] != cols[j]
  }

  /** Column labels are distinct and every row has exactly the table's columns. */
  predicate Wf(t: Table) {
    Distinct(t.columns) && forall i :: 0 <= i < |t.rows| ==> t.rows[i].Keys == ColumnSet(t.columns)
  }

  predicate AllWf(fs: seq<Table>) {
    forall k :: 0 <= k < |fs| ==> Wf(fs[k])
  }

  // ---------------------------------------------------------------------------
  // Assigning a scalar to a column
  // ---------------------------------------------------------------------------

  /** `df[name] = v` with a scalar `v`: every row gets `v` under `name`; a new
      label goes to the end, an existing one keeps its place; the row count and
      every other cell stay as they were. */
  function SetColumn(t: Table, name: string, v: Cell): (r: Table)
    ensures |r.rows| == |t.rows|
    ensures name in r.columns
    ensures ColumnSet(r.columns) == ColumnSet(t.columns) + {name}
    ensures |t.columns| <= |r.columns| && r.columns[..|t.columns|] == t.columns
    ensures forall i :: 0 <= i < |r.rows| ==> name in r.rows[i] && r.rows[i][name] == v
    ensures forall i, c :: 0 <= i < |r.rows| && c in t.rows[i] && c != name ==>
              c in r.rows[i] && r.rows[i][c] == t.rows[i][c]
  {
    Table(if name in t.columns then t.columns else t.columns + [name],
          seq(|t.rows|, i requires 0 <= i < |t.rows| => t.rows[i][name := v]))
  }

  /** Assigning a column keeps a frame well formed. */
  lemma SetColumnWf(t: Table, name: string, v: Cell)
    requires Wf(t)
    ensures Wf(SetColumn(t, name, v))
  {
    var r := SetColumn(t, name, v);
    forall i | 0 <= i < |r.rows| ensures r.rows[i].Keys == ColumnSet(r.columns) {
      assert r.rows[i].Keys == t.rows[i].Keys + {name};
    }
  }

  /** A second assignment to the same column overwrites the first. */
  lemma SetColumnOverwrites(t: Table, name: string, v: Cell, w: Cell)
    ensures SetColumn(SetColumn(t, name, v), name, w) == SetColumn(t, name, w)
  {
    var a := SetColumn(SetColumn(t, name, v), name, w);
    var b := SetColumn(t, name, w);
    assert a.rows == b.rows by {
      forall i | 0 <= i < |a.rows| ensures a.rows[i] == b.rows[i] {
        assert a.rows[i] == t.rows[i][name := v][name := w];
      }
    }
  }

  // ---------------------------------------------------------------------------
  // Concatenation (`pd.concat(frames, ignore_index=True, sort=False)`)
  // ---------------------------------------------------------------------------

  /** The labels of `cols` followed by those of `more` that are new, in order of
      first appearance. */
  function Union(cols: seq<string>, more: seq<string>): (r: seq<string>)
    ensures ColumnSet(r) == ColumnSet(cols) + ColumnSet(more)
    ensures |cols| <= |r| && r[..|cols|] == cols
    ensures Distinct(cols) ==> Distinct(r)
    decreases |more|
  {
    if |more| == 0 then cols
    else
      var cols' := if more[0] in cols then cols else cols + [more[0]];
      assert ColumnSet(more) == {more[0]} + ColumnSet(more[1..]);
      assert cols'[..|cols|] == cols;
      var r := Union(cols', more[1..]);
      assert r[..|cols|] == r[..|cols'|][..|cols|];
      r
  }

  /** The labels of all frames, in order of first appearance. */
  function AllColumns(fs: seq<Table>): seq<string> {
    if |fs| == 0 then [] else Union(AllColumns(fs[..|fs| - 1]), fs[|fs| - 1].columns)
  }

  /** The sum of the frames' row counts. */
  function TotalRows(fs: seq<Table>): nat {
    if |fs| == 0 then 0 else TotalRows(fs[..|fs| - 1]) + |fs[|fs| - 1].rows|
  }

  /** The frames' rows one frame after another. */
  function AllRows(fs: seq<Table>): seq<Row> {
    if |fs| == 0 then [] else AllRows(fs[..|fs| - 1]) + fs[|fs| - 1].rows
  }

  /** A row widened to `cols`: the labels it lacks get a missing cell. */
  function Fill(cols: seq<string>, row: Row): Row {
    (map c | c in cols :: Missing) + row
  }

  /** `pd.concat(frames, ignore_index=True, sort=False)`; pandas raises on an
      empty list, which the loader never passes. */
  function Concat(fs: seq<Table>): Table
    requires |fs| > 0
  {
    var cols := AllColumns(fs);
    var rows := AllRows(fs);
    Table(cols, seq(|rows|, i requires 0 <= i < |rows| => Fill(cols, rows[i])))
  }

  lemma {:induction false} AllRowsCount(fs: seq<Table>)
    ensures |AllRows(fs)| == TotalRows(fs)
  {
    if |fs| > 0 {
      AllRowsCount(fs[..|fs| - 1]);
    }
  }

  lemma {:induction false} AllColumnsSet(fs: seq<Table>)
    ensures forall c :: c in AllColumns(fs) <==> exists k :: 0 <= k < |fs| && c in fs[k].columns
  {
    if |fs| > 0 {
      var init := fs[..|fs| - 1];
      AllColumnsSet(init);
      forall c ensures c in AllColumns(fs) <==> exists k :: 0 <= k < |fs| && c in fs[k].columns {
        if c in AllColumns(fs) {
          assert c in ColumnSet(AllColumns(fs));
          if c in AllColumns(init) {
            var k :| 0 <= k < |init| && c in init[k].columns;
            assert fs[k] == init[k];
          } else {
            assert c in ColumnSet(fs[|fs| - 1].columns);
          }
        }
        if exists k :: 0 <= k < |fs| && c in fs[k].columns {
          var k :| 0 <= k < |fs| && c in fs[k].columns;
          if k < |fs| - 1 {
            assert init[k] == fs[k];
            assert c in ColumnSet(AllColumns(init));
          } else {
            assert c in ColumnSet(fs[k].columns);
          }
          assert c in ColumnSet(AllColumns(fs));
        }
      }
    }
  }

  lemma {:induction false} AllColumnsDistinct(fs: seq<Table>)
    ensures Distinct(AllColumns(fs))
  {
    if |fs| > 0 {
      AllColumnsDistinct(fs[..|fs| - 1]);
    }
  }

  /** Labels that are all new are appended as they are. */
  lemma {:induction false} UnionOfNew(cols: seq<string>, more: seq<string>)
    requires Distinct(cols + more)
    ensures Union(cols, more) == cols + more
    decreases |more|
  {
    if |more| > 0 {
      assert (cols + more)[|cols|] == more[0];
      forall i | 0 <= i < |cols| ensures cols[i] != more[0] {
        assert (cols + more)[i] == cols[i];
      }
      assert cols + more == (cols + [more[0]]) + more[1..];
      UnionOfNew(cols + [more[0]], more[1..]);
    }
  }

  lemma {:induction false} AllColumnsStartWithFirst(fs: seq<Table>)
    requires |fs| > 0 && Distinct(fs[0].columns)
    ensures |fs[0].columns| <= |AllColumns(fs)| && AllColumns(fs)[..|fs[0].columns|] == fs[0].columns
  {
    if |fs| > 1 {
      var init := fs[..|fs| - 1];
      AllColumnsStartWithFirst(init);
      assert init[0] == fs[0];
      var a := AllColumns(init);
      assert AllColumns(fs)[..|a|] == a;
      assert AllColumns(fs)[..|fs[0].columns|] == AllColumns(fs)[..|a|][..|fs[0].columns|];
    } else {
      assert fs[..0] == [];
      assert [] + fs[0].columns == fs[0].columns;
      UnionOfNew([], fs[0].columns);
    }
  }

  /** Row `j` of frame `k` sits at position `TotalRows(fs[..k]) + j` of the rows
      one frame after another. */
  lemma {:induction false} AllRowsBlock(fs: seq<Table>, k: nat, j: nat)
    requires k < |fs| && j < |fs[k].rows|
    ensures TotalRows(fs[..k]) + j < |AllRows(fs)|
    ensures AllRows(fs)[TotalRows(fs[..k]) + j] == fs[k].rows[j]
  {
    var init := fs[..|fs| - 1];
    AllRowsCount(init);
    if k == |fs| - 1 {
      assert fs[..k] == init;
    } else {
      assert init[..k] == fs[..k];
      AllRowsBlock(init, k, j);
    }
  }

  /** The concatenation has as many rows as all frames together. */
  lemma ConcatRowCount(fs: seq<Table>)
    requires |fs| > 0
    ensures |Concat(fs).rows| == TotalRows(fs)
  {
    AllRowsCount(fs);
  }

  /** Its columns are those of the first frame followed by every new label of
      the later frames, each once, and no others. */
  lemma ConcatColumns(fs: seq<Table>)
    requires |fs| > 0 && Distinct(fs[0].columns)
    ensures Distinct(Concat(fs).columns)
    ensures forall c :: c in Concat(fs).columns <==> exists k :: 0 <= k < |fs| && c in fs[k].columns
    ensures |fs[0].columns| <= |Concat(fs).columns| && Concat(fs).columns[..|fs[0].columns|] == fs[0].columns
  {
    AllColumnsDistinct(fs);
    AllColumnsSet(fs);
    AllColumnsStartWithFirst(fs);
  }

  /** Row `j` of frame `k` becomes row `TotalRows(fs[..k]) + j` of the
      concatenation, with its own cells and a missing cell under each label that
      only other frames have. */
  lemma ConcatRow(fs: seq<Table>, k: nat, j: nat)
    requires AllWf(fs)
    requires k < |fs| && j < |fs[k].rows|
    ensures TotalRows(fs[..k]) + j < |Concat(fs).rows|
    ensures Concat(fs).rows[TotalRows(fs[..k]) + j].Keys == ColumnSet(Concat(fs).columns)
    ensures forall c :: c in fs[k].columns ==>
              c in Concat(fs).rows[TotalRows(fs[..k]) + j] && Concat(fs).rows[TotalRows(fs[..k]) + j][c] == fs[k].rows[j][c]
    ensures forall c :: c in Concat(fs).columns && c !in fs[k].columns ==>
              Concat(fs).rows[TotalRows(fs[..k]) + j][c] == Missing
  {
    AllRowsBlock(fs, k, j);
    AllColumnsSet(fs);
    assert Wf(fs[k]);
  }

  /** The concatenation of well-formed frames is well formed. */
  lemma ConcatWf(fs: seq<Table>)
    requires |fs| > 0 && AllWf(fs)
    ensures Wf(Concat(fs))
  {
    AllColumnsDistinct(fs);
    AllColumnsSet(fs);
    var r := Concat(fs);
    var rows := AllRows(fs);
    forall i | 0 <= i < |r.rows| ensures r.rows[i].Keys == ColumnSet(r.columns) {
      AllRowsMember(fs, i);
    }
  }

  /** Every row of the frames one after another comes from one of the frames. */
  lemma {:induction false} AllRowsMember(fs: seq<Table>, i: nat)
    requires i < |AllRows(fs)|
    ensures exists k, j :: 0 <= k < |fs| && 0 <= j < |fs[k].rows| && AllRows(fs)[i] == fs[k].rows[j]
  {
    var init := fs[..|fs| - 1];
    if i < |AllRows(init)| {
      AllRowsMember(init, i);
      var k, j :| 0 <= k < |init| && 0 <= j < |init[k].rows| && AllRows(init)[i] == init[k].rows[j];
      assert fs[k] == init[k];
    } else {
      var j := i - |AllRows(init)|;
      assert AllRows(fs)[i] == fs[|fs| - 1].rows[j];
    }
  }
}
