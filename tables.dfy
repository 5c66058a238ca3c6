/**
  The frame tables that ETL keeps per subject: an ordered list of column names
  and one row per frame, each row a map from column name to value.
*/
module Tables {
  import opened Wrappers

  /** One frame: named numeric fields such as "nose_x" or "V1". */
  type Frame = map<string, real>

  /** A data frame read from one subject's CSV file. */
  datatype Table = Table(columns: seq<string>, rows: seq<Frame>)

  /** The spurious index column a CSV written by pandas carries. */
  const IndexColumn: string := "Unnamed: 0"

  /** Column names are distinct and every row has exactly the table's columns. */
  ghost predicate WellFormed(t: Table)
  {
    && NoDup(t.columns)
    && forall i :: 0 <= i < |t.rows| ==> forall c :: c in t.rows[i] <==> c in t.columns
  }

  /** The columns with every occurrence of name taken out, in their order. */
  function Without(columns: seq<string>, name: string): seq<string>
  {
    if columns == [] then []
    else if columns[0] == name then Without(columns[1..], name)
    else [columns[0]] + Without(columns[1..], name)
  }

  /** Exactly the other columns remain, still distinct when they were; a list without name is unchanged. */
  lemma {:induction false} WithoutSpec(columns: seq<string>, name: string)
    ensures var r := Without(columns, name);
      && (forall c :: c in r <==> c in columns && c != name)
      && (NoDup(columns) ==> NoDup(r))
      && (name !in columns ==> r == columns)
  {
    if columns != [] {
      WithoutSpec(columns[1..], name);
      assert columns == [columns[0]] + columns[1..];
      assert NoDup(columns) ==> columns[0] !in columns[1..] && NoDup(columns[1..]);
    }
  }

  /** `data.drop(columns=[name], errors="ignore")`: a missing column is not an error. */
  function DropColumn(t: Table, name: string): Table
  {
    Table(Without(t.columns, name), seq(|t.rows|, i requires 0 <= i < |t.rows| => t.rows[i] - {name}))
  }

  /**
    The column is gone from the list and from every row, every other field of
    every row is kept, and a well-formed table stays well-formed.
  */
  lemma DropColumnSpec(t: Table, name: string)
    ensures var r := DropColumn(t, name);
      && |r.rows| == |t.rows| && r.columns == Without(t.columns, name)
      && (forall i :: 0 <= i < |t.rows| ==> name !in r.rows[i])
      && (forall i, c :: 0 <= i < |t.rows| && c != name ==>
            (c in r.rows[i] <==> c in t.rows[i]) && (c in t.rows[i] ==> r.rows[i][c] == t.rows[i][c]))
      && (WellFormed(t) ==> WellFormed(r))
  {
    WithoutSpec(t.columns, name);
  }

  /** Dropping an absent column of a well-formed table leaves it as it was. */
  lemma DropAbsentColumn(t: Table, name: string)
    requires WellFormed(t) && name !in t.columns
    ensures DropColumn(t, name) == t
  {
    WithoutSpec(t.columns, name);
    var r := DropColumn(t, name);
    forall i | 0 <= i < |t.rows|
      ensures r.rows[i] == t.rows[i]
    {
      assert name !in t.rows[i];
    }
  }

  /**
    `data[name] = pd.Series(col)` with the table's default 0..n-1 index: row i
    gets col[i]; a new name goes to the end of the columns, an existing one
    keeps its place.
  */
  function AddColumn(t: Table, name: string, col: seq<real>): (r: Table)
    requires |col| == |t.rows|
    ensures |r.rows| == |t.rows|
  {
    var columns := if name in t.columns then t.columns else t.columns + [name];
    Table(columns, seq(|t.rows|, i requires 0 <= i < |t.rows| => t.rows[i][name := col[i]]))
  }

  /** Row i of the attached column holds col[i], every other field is kept, and a well-formed table stays well-formed. */
  lemma AddColumnSpec(t: Table, name: string, col: seq<real>)
    requires |col| == |t.rows|
    ensures var r := AddColumn(t, name, col);
      && r.columns == (if name in t.columns then t.columns else t.columns + [name])
      && (forall i :: 0 <= i < |t.rows| ==> name in r.rows[i] && r.rows[i][name] == col[i])
      && (forall i, c :: 0 <= i < |t.rows| && c != name ==>
            (c in r.rows[i] <==> c in t.rows[i]) && (c in t.rows[i] ==> r.rows[i][c] == t.rows[i][c]))
      && (WellFormed(t) ==> WellFormed(r))
  {
  }

  /** Every one of cols has one entry per row of t. */
  predicate ColumnsFit(t: Table, cols: seq<seq<real>>)
  {
    forall j :: 0 <= j < |cols| ==> |cols[j]| == |t.rows|
  }

  /** The columns attached one after another, in the order of names. */
  function AddColumns(t: Table, names: seq<string>, cols: seq<seq<real>>): (r: Table)
    requires |cols| == |names| && ColumnsFit(t, cols)
    ensures |r.rows| == |t.rows|
  {
    if names == [] then t
    else
      var n := |names| - 1;
      AddColumn(AddColumns(t, names[..n], cols[..n]), names[n], cols[n])
  }

  /** The requirements for attaching new columns: one value per row, distinct names, none already present. */
  ghost predicate Attachable(t: Table, names: seq<string>, cols: seq<seq<real>>)
  {
    && |cols| == |names| && ColumnsFit(t, cols)
    && WellFormed(t) && NoDup(names) && forall j :: 0 <= j < |names| ==> names[j] !in t.columns
  }

  lemma AttachablePrefix(t: Table, names: seq<string>, cols: seq<seq<real>>, n: nat)
    requires Attachable(t, names, cols) && n <= |names|
    ensures Attachable(t, names[..n], cols[..n])
  {
    assert forall j :: 0 <= j < n ==> names[..n][j] == names[j] && cols[..n][j] == cols[j];
  }

  /** Attaching distinct new columns to a well-formed table keeps it well-formed and appends exactly those names. */
  lemma {:induction false} AddColumnsShape(t: Table, names: seq<string>, cols: seq<seq<real>>)
    requires Attachable(t, names, cols)
    ensures var r := AddColumns(t, names, cols);
      WellFormed(r) && r.columns == t.columns + names
  {
    if names != [] {
      var n := |names| - 1;
      var prev := AddColumns(t, names[..n], cols[..n]);
      AttachablePrefix(t, names, cols, n);
      AddColumnsShape(t, names[..n], cols[..n]);
      assert names[n] !in prev.columns;
      AddColumnSpec(prev, names[n], cols[n]);
      assert names == names[..n] + [names[n]];
    }
  }

  /** Row i of column names[j] holds cols[j][i], whether or not the name was already a column. */
  lemma {:induction false} AddColumnsValue(t: Table, names: seq<string>, cols: seq<seq<real>>, i: nat, j: nat)
    requires |cols| == |names| && ColumnsFit(t, cols) && NoDup(names)
    requires i < |t.rows| && j < |names|
    ensures var r := AddColumns(t, names, cols);
      names[j] in r.rows[i] && r.rows[i][names[j]] == cols[j][i]
  {
    var n := |names| - 1;
    var prev := AddColumns(t, names[..n], cols[..n]);
    AddColumnSpec(prev, names[n], cols[n]);
    if j < n {
      assert forall k :: 0 <= k < n ==> names[..n][k] == names[k] && cols[..n][k] == cols[k];
      assert NoDup(names[..n]);
      AddColumnsValue(t, names[..n], cols[..n], i, j);
      assert names[j] != names[n];
    }
  }

  /**
    Attaching columns keeps the existing columns in front, adds exactly the
    attached names to the set of columns, and keeps a well-formed table
    well-formed, whether or not some names were already columns.
  */
  lemma {:induction false} AddColumnsColumns(t: Table, names: seq<string>, cols: seq<seq<real>>)
    requires |cols| == |names| && ColumnsFit(t, cols)
    ensures var r := AddColumns(t, names, cols);
      && t.columns <= r.columns
      && (forall c :: c in r.columns <==> c in t.columns || c in names)
      && (WellFormed(t) ==> WellFormed(r))
  {
    if names != [] {
      var n := |names| - 1;
      var prev := AddColumns(t, names[..n], cols[..n]);
      AddColumnsColumns(t, names[..n], cols[..n]);
      AddColumnSpec(prev, names[n], cols[n]);
      assert names == names[..n] + [names[n]];
    }
  }

  /** Every field that is not one of the attached names keeps its presence and value in every row. */
  lemma {:induction false} AddColumnsKeeps(t: Table, names: seq<string>, cols: seq<seq<real>>)
    requires |cols| == |names| && ColumnsFit(t, cols)
    ensures var r := AddColumns(t, names, cols);
      forall i, c :: 0 <= i < |t.rows| && c !in names ==>
        (c in r.rows[i] <==> c in t.rows[i]) && (c in t.rows[i] ==> r.rows[i][c] == t.rows[i][c])
  {
    if names != [] {
      var n := |names| - 1;
      var prev := AddColumns(t, names[..n], cols[..n]);
      AddColumnsKeeps(t, names[..n], cols[..n]);
      AddColumnSpec(prev, names[n], cols[n]);
      var r := AddColumns(t, names, cols);
      forall i, c | 0 <= i < |t.rows| && c !in names
        ensures (c in r.rows[i] <==> c in t.rows[i]) && (c in t.rows[i] ==> r.rows[i][c] == t.rows[i][c])
      {
        assert c !in names[..n];
      }
    }
  }
}
