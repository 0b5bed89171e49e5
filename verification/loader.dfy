/** The filtering loop of `load_pos_file`: of the rows read from a solution file,
    keep `[timestamp, longitude, altitude]` of those whose quality flag is 1
    (a carrier-phase fixed solution), in file order. */
module Loader {
  import opened Records

  /** The script's test `int(row[3]) == 1`. */
  predicate IsFixed(row: SolutionRow) {
    row.quality == 1
  }

  /** The record appended for a kept row. */
  function Project(row: SolutionRow): Fix {
    Fix(row.timestamp, row.longitude, row.altitude)
  }

  /** `f` is the projection of some quality-1 row of `rows`. */
  ghost predicate ComesFromFixedRow(rows: seq<SolutionRow>, f: Fix) {
    exists i :: 0 <= i < |rows| && IsFixed(rows[i]) && f == Project(rows[i])
  }

  /** `load_pos_file` on already parsed rows: each kept record is the projection
      of a quality-1 row, every quality-1 row is kept, and nothing is added. */
  function LoadPosFile(rows: seq<SolutionRow>): (r: seq<Fix>)
    ensures |r| <= |rows|
    ensures forall j :: 0 <= j < |r| ==> ComesFromFixedRow(rows, r[j])
    ensures forall i :: 0 <= i < |rows| && IsFixed(rows[i]) ==> Project(rows[i]) in r
  {
    if |rows| == 0 then []
    else
      var last := rows[|rows| - 1];
      LoadPosFile(rows[..|rows| - 1]) + (if IsFixed(last) then [Project(last)] else [])
  }

  /** The number of rows in `rows` with quality flag 1. */
  function CountFixed(rows: seq<SolutionRow>): nat {
    if |rows| == 0 then 0
    else CountFixed(rows[..|rows| - 1]) + (if IsFixed(rows[|rows| - 1]) then 1 else 0)
  }

  /** Loading distributes over splitting the file: the records of an earlier
      part all come before those of a later part, so file order is kept. */
  lemma {:induction false} LoadPosFileAppend(a: seq<SolutionRow>, b: seq<SolutionRow>)
    ensures LoadPosFile(a + b) == LoadPosFile(a) + LoadPosFile(b)
    decreases |b|
  {
    if |b| == 0 {
      assert a + b == a;
    } else {
      var b' := b[..|b| - 1];
      assert (a + b)[..|a + b| - 1] == a + b';
      LoadPosFileAppend(a, b');
    }
  }

  /** A single row loads to its projection when fixed and to nothing otherwise. */
  lemma {:induction false} LoadPosFileSingle(row: SolutionRow)
    ensures LoadPosFile([row]) == if IsFixed(row) then [Project(row)] else []
  {
    assert [row][..0] == [];
  }

  /** Exactly one record per quality-1 row. */
  lemma {:induction false} LoadPosFileLength(rows: seq<SolutionRow>)
    ensures |LoadPosFile(rows)| == CountFixed(rows)
  {
    if |rows| > 0 {
      LoadPosFileLength(rows[..|rows| - 1]);
    }
  }

  /** No row whose flag differs from 1 is loaded: when every row has another
      flag the result is empty. */
  lemma {:induction false} NoFixedNothingLoaded(rows: seq<SolutionRow>)
    requires forall i :: 0 <= i < |rows| ==> !IsFixed(rows[i])
    ensures LoadPosFile(rows) == []
  {
    if |rows| > 0 {
      NoFixedNothingLoaded(rows[..|rows| - 1]);
    }
  }

  /** The projection of every row, in file order. */
  function Projections(rows: seq<SolutionRow>): seq<Fix> {
    seq(|rows|, i requires 0 <= i < |rows| => Project(rows[i]))
  }

  /** A file of fixed rows only loads to their projections, one for one. */
  lemma {:induction false} AllFixedAllLoaded(rows: seq<SolutionRow>)
    requires forall i :: 0 <= i < |rows| ==> IsFixed(rows[i])
    ensures LoadPosFile(rows) == Projections(rows)
  {
    if |rows| > 0 {
      var init := rows[..|rows| - 1];
      AllFixedAllLoaded(init);
      assert Projections(rows) == Projections(init) + [Project(rows[|rows| - 1])];
    }
  }
}
