/** Per-heater temperature columns from the measurement sheet (get_vars.py).
    The sheet arrives as already-parsed CSV rows of strings: row 0 is a
    header, cell 0 of every row is a time label, and cells 1 to 6 hold the
    readings of heaters 0 to 5, an empty cell meaning "no sample". */
module Readings {

  /** The number of per-heater lists the script keeps. */
  const Heaters: nat := 6

  /** What one cell contributes to its column: itself, unless it is absent
      or empty. */
  function Cell(row: seq<string>, col: nat): seq<string>
  {
    if col < |row| && row[col] != "" then [row[col]] else []
  }

  /** The non-empty cells of column col, in row order. */
  function ColumnCells(rows: seq<seq<string>>, col: nat): (cells: seq<string>)
    ensures |cells| <= |rows|
    ensures forall k :: 0 <= k < |cells| ==> cells[k] != ""
  {
    if rows == [] then []
    else ColumnCells(rows[..|rows| - 1], col) + Cell(rows[|rows| - 1], col)
  }

  /** The rows after the header. */
  function DataRows(rows: seq<seq<string>>): seq<seq<string>>
  {
    if rows == [] then [] else rows[1..]
  }

  /** The six lists the script accumulates: list c holds the non-empty
      cells of column c + 1 of the data rows. */
  function Collected(rows: seq<seq<string>>): (readings: seq<seq<string>>)
    ensures |readings| == Heaters
  {
    seq(Heaters, c requires 0 <= c < Heaters => ColumnCells(DataRows(rows), c + 1))
  }

  /** The script only indexes list ii - 1 for a non-empty cell ii of a data
      row, so it fails exactly when such a cell lies beyond column 6. */
  predicate FitsReadings(rows: seq<seq<string>>)
  {
    forall i, j :: 1 <= i < |rows| && Heaters + 1 <= j < |rows[i]| ==> rows[i][j] == ""
  }

  /** The nested accumulation loop: skip the header row and the first
      column, drop empty cells, append every other cell to its list. */
  method CollectReadings(rows: seq<seq<string>>) returns (readings: seq<seq<string>>)
    requires FitsReadings(rows)
    ensures readings == Collected(rows)
  {
    readings := [[], [], [], [], [], []];
    NoDataNoReadings(rows[..0]);
    for i := 0 to |rows|
      invariant |readings| == Heaters
      invariant forall c :: 0 <= c < Heaters ==> readings[c] == Collected(rows[..i])[c]
    {
      var r := rows[i];
      if i > 0 {
        ReadingsOfPrefix(rows, i);
        readings := AppendRowCells(readings, r);
        ReadingsOfPrefix(rows, i + 1);
      } else {
        NoDataNoReadings(rows[..1]);
      }
    }
    assert rows[..|rows|] == rows;
  }

  /** The inner loop over the cells of one data row: skip cell 0, drop
      empty cells, append cell ii to list ii - 1. */
  method AppendRowCells(readings: seq<seq<string>>, r: seq<string>) returns (updated: seq<seq<string>>)
    requires |readings| == Heaters
    requires forall j :: Heaters + 1 <= j < |r| ==> r[j] == ""
    ensures |updated| == Heaters
    ensures forall c :: 0 <= c < Heaters ==> updated[c] == readings[c] + Cell(r, c + 1)
  {
    updated := readings;
    for ii := 0 to |r|
      invariant |updated| == Heaters
      invariant forall c :: 0 <= c < Heaters ==>
                  updated[c] == readings[c] + (if c + 1 < ii then Cell(r, c + 1) else [])
    {
      var col := r[ii];
      if ii > 0 {
        if col != "" {
          updated := updated[ii - 1 := updated[ii - 1] + [col]];
        }
      }
    }
  }

  /** The lists after the first i rows, seen one column at a time; the
      columns grow by one row's cells from i rows to i + 1. */
  lemma ReadingsOfPrefix(rows: seq<seq<string>>, i: nat)
    requires 1 <= i <= |rows|
    ensures forall c :: 0 <= c < Heaters ==> Collected(rows[..i])[c] == ColumnCells(rows[1..i], c + 1)
    ensures i < |rows| ==> forall col :: 1 <= col <= Heaters ==>
              ColumnCells(rows[1..i + 1], col) == ColumnCells(rows[1..i], col) + Cell(rows[i], col)
  {
    assert DataRows(rows[..i]) == rows[1..i];
    if i < |rows| {
      assert rows[1..i + 1][..i - 1] == rows[1..i];
    }
  }

  /** The loop over the six lists that hands a list to the fitting step only
      when it holds at least one value: the indices of the non-empty lists,
      each exactly once and in increasing order. */
  method SelectNonEmpty(readings: seq<seq<string>>) returns (picked: seq<nat>)
    ensures forall k :: 0 <= k < |picked| ==> picked[k] < |readings| && |readings[picked[k]]| > 0
    ensures forall i :: 0 <= i < |readings| && |readings[i]| > 0 ==> i in picked
    ensures forall k, l :: 0 <= k < l < |picked| ==> picked[k] < picked[l]
  {
    picked := [];
    for i := 0 to |readings|
      invariant forall k :: 0 <= k < |picked| ==> picked[k] < i && |readings[picked[k]]| > 0
      invariant forall j :: 0 <= j < i && |readings[j]| > 0 ==> j in picked
      invariant forall k, l :: 0 <= k < l < |picked| ==> picked[k] < picked[l]
    {
      if |readings[i]| > 0 {
        picked := picked + [i];
      }
    }
  }

  /** Without data rows all six lists are empty. */
  lemma NoDataNoReadings(rows: seq<seq<string>>)
    requires |rows| <= 1
    ensures Collected(rows) == [[], [], [], [], [], []]
  {
    assert DataRows(rows) == [];
    var readings := Collected(rows);
    forall c | 0 <= c < Heaters
      ensures readings[c] == []
    {
      assert readings[c] == ColumnCells([], c + 1);
    }
  }

  /** There are always six lists, none longer than the number of data rows,
      and no list keeps an empty cell as a placeholder. */
  lemma ReadingsShape(rows: seq<seq<string>>)
    ensures |Collected(rows)| == Heaters
    ensures forall c :: 0 <= c < Heaters ==> |Collected(rows)[c]| <= |DataRows(rows)|
    ensures |rows| > 0 ==> |DataRows(rows)| == |rows| - 1
    ensures forall c, k :: 0 <= c < Heaters && 0 <= k < |Collected(rows)[c]| ==> Collected(rows)[c][k] != ""
  {
    forall c | 0 <= c < Heaters
      ensures Collected(rows)[c] == ColumnCells(DataRows(rows), c + 1)
    {
    }
  }

  /** Splitting the rows splits every column in the same place: the cells
      keep their row order. */
  lemma {:induction false} ColumnAppend(a: seq<seq<string>>, b: seq<seq<string>>, col: nat)
    ensures ColumnCells(a + b, col) == ColumnCells(a, col) + ColumnCells(b, col)
    decreases |b|
  {
    if b == [] {
      assert a + b == a;
    } else {
      var b' := b[..|b| - 1];
      assert (a + b)[..|a + b| - 1] == a + b';
      ColumnAppend(a, b', col);
    }
  }

  /** A value is in a column exactly when some row has it, non-empty, in
      that column. */
  lemma {:induction false} ColumnMembership(rows: seq<seq<string>>, col: nat, x: string)
    ensures x in ColumnCells(rows, col) <==>
            x != "" && exists i :: 0 <= i < |rows| && col < |rows[i]| && rows[i][col] == x
    decreases |rows|
  {
    if rows != [] {
      var front := rows[..|rows| - 1];
      ColumnMembership(front, col, x);
      var last := rows[|rows| - 1];
      if x in ColumnCells(rows, col) {
        if x !in ColumnCells(front, col) {
          assert x in Cell(last, col);
        } else {
          var i :| 0 <= i < |front| && col < |front[i]| && front[i][col] == x;
          assert rows[i] == front[i];
        }
      }
      if x != "" && exists i :: 0 <= i < |rows| && col < |rows[i]| && rows[i][col] == x {
        var i :| 0 <= i < |rows| && col < |rows[i]| && rows[i][col] == x;
        if i < |rows| - 1 {
          assert front[i] == rows[i];
        } else {
          assert x in Cell(last, col);
        }
      }
    }
  }

  /** Every stored value comes from a data row (never the header) and from
      column c + 1 (never the first column), and every non-empty such cell
      is stored. */
  lemma ReadingsMembership(rows: seq<seq<string>>, c: nat, x: string)
    requires c < Heaters
    ensures x in Collected(rows)[c] <==>
            x != "" && exists i :: 1 <= i < |rows| && c + 1 < |rows[i]| && rows[i][c + 1] == x
  {
    var data := DataRows(rows);
    ColumnMembership(data, c + 1, x);
    if x in Collected(rows)[c] {
      var i :| 0 <= i < |data| && c + 1 < |data[i]| && data[i][c + 1] == x;
      assert rows[i + 1] == data[i];
    }
    if x != "" && exists i :: 1 <= i < |rows| && c + 1 < |rows[i]| && rows[i][c + 1] == x {
      var i :| 1 <= i < |rows| && c + 1 < |rows[i]| && rows[i][c + 1] == x;
      assert data[i - 1] == rows[i];
    }
  }

  /** The header row contributes nothing: any other header gives the same
      lists. */
  lemma HeaderIgnored(header: seq<string>, other: seq<string>, data: seq<seq<string>>)
    ensures Collected([header] + data) == Collected([other] + data)
  {
    assert DataRows([header] + data) == data == DataRows([other] + data);
  }

  /** Rows of equal length that differ at most in cell 0. */
  predicate SameButFirstCell(r: seq<string>, s: seq<string>)
  {
    |r| == |s| && forall j :: 1 <= j < |r| ==> r[j] == s[j]
  }

  /** The first column contributes nothing: changing cell 0 of any rows
      leaves every list as it was. */
  lemma {:induction false} FirstColumnIgnored(rows: seq<seq<string>>, others: seq<seq<string>>, col: nat)
    requires |rows| == |others|
    requires forall i :: 0 <= i < |rows| ==> SameButFirstCell(rows[i], others[i])
    requires col >= 1
    ensures ColumnCells(rows, col) == ColumnCells(others, col)
    decreases |rows|
  {
    if rows != [] {
      var n := |rows| - 1;
      FirstColumnIgnored(rows[..n], others[..n], col);
      assert Cell(rows[n], col) == Cell(others[n], col);
    }
  }
}
