/** The on/off schedule read from the configuration sheet (main.py).
    The sheet arrives as already-parsed CSV rows of strings. Rows are
    ignored until one whose first cell is "Secuencia"; that row and every
    row after it is schedule data, one boolean per heater, an empty cell
    meaning "off". */
module Schedule {

  /** The label of the row where the schedule block starts. */
  const Marker: string := "Secuencia"

  /** The number of heaters, one schedule column each. */
  const Heaters: nat := 6

  predicate IsMarker(row: seq<string>)
  {
    |row| > 0 && row[0] == Marker
  }

  /** The index of the first marker row, or |rows| when there is none. */
  function MarkerIndex(rows: seq<seq<string>>): (k: nat)
    ensures k <= |rows|
    ensures forall j :: 0 <= j < k ==> !IsMarker(rows[j])
    ensures k < |rows| ==> IsMarker(rows[k])
  {
    if rows == [] then 0
    else if IsMarker(rows[0]) then 0
    else 1 + MarkerIndex(rows[1..])
  }

  /** The on/off vector of one schedule row: heater c is on exactly when
      cell c is non-empty. */
  function Flags(row: seq<string>): (flags: seq<bool>)
    requires |row| >= Heaters
    ensures |flags| == Heaters
    ensures forall c :: 0 <= c < Heaters ==> (flags[c] <==> row[c] != "")
  {
    seq(Heaters, c requires 0 <= c < Heaters => row[c] != "")
  }

  /** What the loop can read without failing: a first cell in every row,
      and a cell for every heater in every row from the marker on. */
  predicate Readable(rows: seq<seq<string>>)
  {
    (forall i :: 0 <= i < |rows| ==> |rows[i]| >= 1) &&
    (forall i :: MarkerIndex(rows) <= i < |rows| ==> |rows[i]| >= Heaters)
  }

  /** The schedule the loop produces: the flags of the marker row and of
      every row after it, in order. */
  function Schedule(rows: seq<seq<string>>): (sched: seq<seq<bool>>)
    requires Readable(rows)
    ensures |sched| == |rows| - MarkerIndex(rows)
    ensures forall j :: 0 <= j < |sched| ==> |sched[j]| == Heaters
  {
    var k := MarkerIndex(rows);
    var sched := seq(|rows| - k, j requires 0 <= j < |rows| - k => Flags(rows[k + j]));
    assert forall j :: 0 <= j < |sched| ==> sched[j] == Flags(rows[k + j]);
    sched
  }

  /** The latched pass over the rows: the flag seq_start turns on at the
      first marker and never off, and while it is on every row is turned
      into six booleans, cell by cell, and appended. */
  method ExtractSchedule(rows: seq<seq<string>>) returns (sched: seq<seq<bool>>)
    requires Readable(rows)
    ensures sched == Schedule(rows)
  {
    ghost var k := MarkerIndex(rows);
    sched := [];
    var seqStart := false;
    for i := 0 to |rows|
      invariant seqStart <==> k < i
      invariant |sched| == if seqStart then i - k else 0
      invariant forall j :: 0 <= j < |sched| ==> sched[j] == Flags(rows[k + j])
    {
      var r := rows[i];
      if r[0] == Marker {
        seqStart := true;
      }
      if seqStart {
        var row := [];
        for res := 0 to Heaters
          invariant |row| == res
          invariant forall c :: 0 <= c < res ==> (row[c] <==> r[c] != "")
        {
          var valor := false;
          if r[res] != "" {
            valor := true;
          }
          row := row + [valor];
        }
        assert row == Flags(r);
        sched := sched + [row];
      }
    }
  }

  /** The schedule has one entry per row from the first marker on, each of
      six booleans, and heater c is on in entry j exactly when cell c of the
      corresponding row is non-empty. */
  lemma ScheduleCells(rows: seq<seq<string>>)
    requires Readable(rows)
    ensures |Schedule(rows)| == |rows| - MarkerIndex(rows)
    ensures forall j, c :: 0 <= j < |Schedule(rows)| && 0 <= c < Heaters ==>
              |Schedule(rows)[j]| == Heaters &&
              (Schedule(rows)[j][c] <==> rows[MarkerIndex(rows) + j][c] != "")
  {
    var k := MarkerIndex(rows);
    forall j | 0 <= j < |Schedule(rows)|
      ensures Schedule(rows)[j] == Flags(rows[k + j])
    {
    }
  }

  /** Without a marker row nothing is emitted. */
  lemma NoMarkerNoSchedule(rows: seq<seq<string>>)
    requires Readable(rows)
    requires forall i :: 0 <= i < |rows| ==> rows[i][0] != Marker
    ensures Schedule(rows) == []
  {
  }

  /** With a marker, the schedule starts with the marker row, whose first
      heater is therefore on. */
  lemma FirstEmittedIsOn(rows: seq<seq<string>>)
    requires Readable(rows)
    requires exists i :: 0 <= i < |rows| && rows[i][0] == Marker
    ensures |Schedule(rows)| > 0 && Schedule(rows)[0][0]
  {
    var i :| 0 <= i < |rows| && rows[i][0] == Marker;
    assert IsMarker(rows[i]);
    var k := MarkerIndex(rows);
    assert k < |rows| && rows[k][0] == Marker;
    assert Schedule(rows)[0] == Flags(rows[k]);
  }

  /** The latch: once the rows read so far contain a marker, every further
      row is emitted after what was emitted so far, whatever its first
      cell. */
  lemma LatchNeverResets(front: seq<seq<string>>, back: seq<seq<string>>)
    requires Readable(front + back)
    requires MarkerIndex(front) < |front|
    ensures MarkerIndex(front + back) == MarkerIndex(front)
    ensures Readable(front)
    ensures |Schedule(front + back)| == |Schedule(front)| + |back|
    ensures Schedule(front + back)[..|Schedule(front)|] == Schedule(front)
    ensures forall j, c :: 0 <= j < |back| && 0 <= c < Heaters ==>
              (Schedule(front + back)[|Schedule(front)| + j][c] <==> back[j][c] != "")
  {
    var rows := front + back;
    MarkerPrefix(front, back);
    var k := MarkerIndex(front);
    forall i | 0 <= i < |front|
      ensures |front[i]| >= 1 && (k <= i ==> |front[i]| >= Heaters)
    {
      assert front[i] == rows[i];
    }
    var whole, part := Schedule(rows), Schedule(front);
    forall j | 0 <= j < |part|
      ensures whole[j] == part[j]
    {
      assert rows[k + j] == front[k + j];
    }
    assert whole[..|part|] == part;
    forall j | 0 <= j < |back|
      ensures |back[j]| >= Heaters
      ensures forall c :: 0 <= c < Heaters ==> (whole[|part| + j][c] <==> back[j][c] != "")
    {
      assert rows[k + |part| + j] == back[j];
      assert whole[|part| + j] == Flags(back[j]);
    }
  }

  /** The first marker of rows that start with front is the first marker of
      front, when front has one. */
  lemma {:induction false} MarkerPrefix(front: seq<seq<string>>, back: seq<seq<string>>)
    requires MarkerIndex(front) < |front|
    ensures MarkerIndex(front + back) == MarkerIndex(front)
    decreases |front|
  {
    if !IsMarker(front[0]) {
      assert (front + back)[1..] == front[1..] + back;
      MarkerPrefix(front[1..], back);
    }
  }

  /** Before the first marker, the rows read so far contribute nothing: the
      schedule of front + back is the schedule of back. */
  lemma {:induction false} IgnoredBeforeMarker(front: seq<seq<string>>, back: seq<seq<string>>)
    requires Readable(front + back)
    requires forall i :: 0 <= i < |front| ==> !IsMarker(front[i])
    ensures Readable(back)
    ensures Schedule(front + back) == Schedule(back)
    decreases |front|
  {
    if front != [] {
      assert (front + back)[1..] == front[1..] + back;
      assert MarkerIndex(front + back) == 1 + MarkerIndex(front[1..] + back);
      IgnoredBeforeMarker(front[1..], back);
    } else {
      assert front + back == back;
    }
  }
}
