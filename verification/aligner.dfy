/** The timestamp join of `compare_timestamps`: the reference (RTK) records are
    put in a dictionary keyed by timestamp, built in file order so that a later
    row overwrites an earlier one with the same key; the Emlid records are then
    walked in order and every one whose timestamp is a key yields a position
    pair and an altitude pair. Timestamps are compared by exact equality. */
module Aligner {
  import opened Records

  /** The four parallel outputs: `emlid_to_plot`, `rtk_to_plot`, `emlid_bias`,
      `rtk_bias`. */
  datatype Alignment = Alignment(
    emlidToPlot: seq<Point>,
    rtkToPlot: seq<Point>,
    emlidBias: seq<real>,
    rtkBias: seq<real>)
  {
    /** All four outputs have one entry per matched pair. */
    predicate Parallel() {
      |emlidToPlot| == |rtkToPlot| == |emlidBias| == |rtkBias|
    }

    function Size(): nat {
      |emlidBias|
    }
  }

  /** The outputs of one part of the Emlid records followed by those of the next. */
  function Concat(x: Alignment, y: Alignment): Alignment {
    Alignment(x.emlidToPlot + y.emlidToPlot, x.rtkToPlot + y.rtkToPlot,
              x.emlidBias + y.emlidBias, x.rtkBias + y.rtkBias)
  }

  /** The timestamps that occur in `rows`. */
  function Timestamps(rows: seq<Fix>): set<string> {
    set k | 0 <= k < |rows| :: rows[k].timestamp
  }

  /** Row `k` is the last row of `rtk` with timestamp `t`. */
  ghost predicate IsLastWith(rtk: seq<Fix>, k: int, t: string) {
    && 0 <= k < |rtk|
    && rtk[k].timestamp == t
    && forall j :: k < j < |rtk| ==> rtk[j].timestamp != t
  }

  /** The position of the last row of `rtk` with timestamp `t`. */
  function LastIndex(rtk: seq<Fix>, t: string): (k: nat)
    requires t in Timestamps(rtk)
    ensures IsLastWith(rtk, k, t)
  {
    var j :| 0 <= j < |rtk| && rtk[j].timestamp == t;
    var last := |rtk| - 1;
    if rtk[last].timestamp == t then last
    else
      var init := rtk[..last];
      assert init[j] == rtk[j];
      var k := LastIndex(init, t);
      assert rtk[k] == init[k];
      k
  }

  /** The last row of `rtk` with timestamp `t`. */
  function LastWith(rtk: seq<Fix>, t: string): Fix
    requires t in Timestamps(rtk)
  {
    rtk[LastIndex(rtk, t)]
  }

  /** At most one row is the last with a given timestamp. */
  lemma {:induction false} LastIsUnique(rtk: seq<Fix>, k: int, t: string)
    requires t in Timestamps(rtk) && IsLastWith(rtk, k, t)
    ensures k == LastIndex(rtk, t)
  {
  }

  /** The dictionary `{row[0]: row for row in pre_rtk}`: its keys are the
      timestamps of `rtk`, and each key is bound to the last row carrying it. */
  function Index(rtk: seq<Fix>): (m: map<string, Fix>)
    ensures m.Keys == Timestamps(rtk)
    ensures forall t :: t in m ==> m[t] == LastWith(rtk, t)
  {
    if |rtk| == 0 then map[]
    else
      var init := rtk[..|rtk| - 1];
      var last := rtk[|rtk| - 1];
      var m := Index(init)[last.timestamp := last];
      TimestampsOfPrefix(rtk);
      IndexStep(rtk, Index(init), m);
      m
  }

  /** Adding the last row to the dictionary of the earlier rows binds its key
      to it and leaves the other keys bound to their last row. */
  lemma {:induction false} IndexStep(rtk: seq<Fix>, prev: map<string, Fix>, m: map<string, Fix>)
    requires |rtk| > 0
    requires prev.Keys == Timestamps(rtk[..|rtk| - 1])
    requires forall t :: t in prev ==> prev[t] == LastWith(rtk[..|rtk| - 1], t)
    requires m == prev[rtk[|rtk| - 1].timestamp := rtk[|rtk| - 1]]
    ensures m.Keys == Timestamps(rtk)
    ensures forall t :: t in m ==> m[t] == LastWith(rtk, t)
  {
    var init := rtk[..|rtk| - 1];
    var last := rtk[|rtk| - 1];
    TimestampsOfPrefix(rtk);
    LastIsUnique(rtk, |rtk| - 1, last.timestamp);
    forall t | t in m ensures m[t] == LastWith(rtk, t) {
      if t != last.timestamp {
        var k := LastIndex(init, t);
        assert rtk[k] == init[k];
        assert IsLastWith(rtk, k, t);
        LastIsUnique(rtk, k, t);
      }
    }
  }

  /** The Emlid records the join keeps: those whose timestamp occurs among the
      RTK records, in Emlid order. The reference against which the join is
      stated. */
  function Matched(emlid: seq<Fix>, rtk: seq<Fix>): (r: seq<Fix>)
    ensures |r| <= |emlid|
    ensures forall j :: 0 <= j < |r| ==> r[j] in emlid && r[j].timestamp in Timestamps(rtk)
    ensures forall i :: 0 <= i < |emlid| && emlid[i].timestamp in Timestamps(rtk) ==> emlid[i] in r
  {
    if |emlid| == 0 then []
    else
      var last := emlid[|emlid| - 1];
      Matched(emlid[..|emlid| - 1], rtk) + (if last.timestamp in Timestamps(rtk) then [last] else [])
  }

  /** The loop of `compare_timestamps` over `emlid` against a built dictionary. */
  function Join(emlid: seq<Fix>, index: map<string, Fix>): (a: Alignment)
    ensures a.Parallel() && a.Size() <= |emlid|
    ensures forall i :: 0 <= i < a.Size() ==>
      a.emlidBias[i] == a.emlidToPlot[i].altitude && a.rtkBias[i] == a.rtkToPlot[i].altitude
  {
    if |emlid| == 0 then Alignment([], [], [], [])
    else
      var prev := Join(emlid[..|emlid| - 1], index);
      var row := emlid[|emlid| - 1];
      if row.timestamp in index then
        var hit := index[row.timestamp];
        Alignment(prev.emlidToPlot + [PointOf(row)], prev.rtkToPlot + [PointOf(hit)],
                  prev.emlidBias + [row.altitude], prev.rtkBias + [hit.altitude])
      else prev
  }

  /** `compare_timestamps(pre_emlid, pre_rtk)`: one entry per Emlid record whose
      timestamp the RTK records share, in Emlid order; the i-th Emlid position is
      that record's, the i-th RTK position is the one of the LAST RTK row with
      the same timestamp, and the two altitude outputs repeat the altitudes of
      the two position outputs. */
  function CompareTimestamps(emlid: seq<Fix>, rtk: seq<Fix>): (a: Alignment)
    ensures a.Parallel()
    ensures a.Size() == |Matched(emlid, rtk)| <= |emlid|
    ensures forall i :: 0 <= i < a.Size() ==> a.emlidToPlot[i] == PointOf(Matched(emlid, rtk)[i])
    ensures forall i :: 0 <= i < a.Size() ==>
      a.rtkToPlot[i] == PointOf(LastWith(rtk, Matched(emlid, rtk)[i].timestamp))
    ensures forall i :: 0 <= i < a.Size() ==>
      a.emlidBias[i] == a.emlidToPlot[i].altitude && a.rtkBias[i] == a.rtkToPlot[i].altitude
  {
    JoinFollowsMatched(emlid, rtk);
    Join(emlid, Index(rtk))
  }

  /** The join against the dictionary of `rtk` pairs the matched Emlid records,
      in order, with the last RTK row of the same timestamp. */
  lemma {:induction false} JoinFollowsMatched(emlid: seq<Fix>, rtk: seq<Fix>)
    ensures Join(emlid, Index(rtk)).Size() == |Matched(emlid, rtk)|
    ensures forall i :: 0 <= i < |Matched(emlid, rtk)| ==>
      Join(emlid, Index(rtk)).emlidToPlot[i] == PointOf(Matched(emlid, rtk)[i])
    ensures forall i :: 0 <= i < |Matched(emlid, rtk)| ==>
      Join(emlid, Index(rtk)).rtkToPlot[i] == PointOf(LastWith(rtk, Matched(emlid, rtk)[i].timestamp))
  {
    if |emlid| > 0 {
      var init := emlid[..|emlid| - 1];
      var row := emlid[|emlid| - 1];
      JoinFollowsMatched(init, rtk);
      var index := Index(rtk);
      var prev := Join(init, index);
      var a := Join(emlid, index);
      var pm := Matched(init, rtk);
      var m := Matched(emlid, rtk);
      if row.timestamp in index {
        assert m == pm + [row];
        forall i | 0 <= i < |m|
          ensures a.emlidToPlot[i] == PointOf(m[i])
          ensures a.rtkToPlot[i] == PointOf(LastWith(rtk, m[i].timestamp))
        {
          if i < |pm| {
            assert a.emlidToPlot[i] == prev.emlidToPlot[i];
            assert a.rtkToPlot[i] == prev.rtkToPlot[i];
            assert m[i] == pm[i];
          }
        }
      } else {
        assert m == pm;
      }
    }
  }

  /** Joining a split Emlid sequence gives the outputs of the first part
      followed by those of the second: the join keeps Emlid order. */
  lemma {:induction false} JoinAppend(a: seq<Fix>, b: seq<Fix>, index: map<string, Fix>)
    ensures Join(a + b, index) == Concat(Join(a, index), Join(b, index))
    decreases |b|
  {
    if |b| == 0 {
      assert a + b == a;
      var x := Join(a, index);
      assert x.emlidToPlot + [] == x.emlidToPlot && x.rtkToPlot + [] == x.rtkToPlot;
      assert x.emlidBias + [] == x.emlidBias && x.rtkBias + [] == x.rtkBias;
    } else {
      var b' := b[..|b| - 1];
      assert (a + b)[..|a + b| - 1] == a + b';
      JoinAppend(a, b', index);
      var x := Join(a, index);
      var y := Join(b', index);
      var row := b[|b| - 1];
      if row.timestamp in index {
        var hit := index[row.timestamp];
        assert (x.emlidToPlot + y.emlidToPlot) + [PointOf(row)] == x.emlidToPlot + (y.emlidToPlot + [PointOf(row)]);
        assert (x.rtkToPlot + y.rtkToPlot) + [PointOf(hit)] == x.rtkToPlot + (y.rtkToPlot + [PointOf(hit)]);
        assert (x.emlidBias + y.emlidBias) + [row.altitude] == x.emlidBias + (y.emlidBias + [row.altitude]);
        assert (x.rtkBias + y.rtkBias) + [hit.altitude] == x.rtkBias + (y.rtkBias + [hit.altitude]);
      }
    }
  }

  /** Pairwise distinct timestamps. */
  ghost predicate DistinctTimestamps(rows: seq<Fix>) {
    forall i, j :: 0 <= i < j < |rows| ==> rows[i].timestamp != rows[j].timestamp
  }

  lemma {:induction false} TimestampsOfPrefix(rows: seq<Fix>)
    requires |rows| > 0
    ensures Timestamps(rows) == Timestamps(rows[..|rows| - 1]) + {rows[|rows| - 1].timestamp}
  {
    var init := rows[..|rows| - 1];
    forall t | t in Timestamps(rows) ensures t in Timestamps(init) + {rows[|rows| - 1].timestamp} {
      var k :| 0 <= k < |rows| && rows[k].timestamp == t;
      if k < |init| {
        assert init[k] == rows[k];
      }
    }
    forall t | t in Timestamps(init) ensures t in Timestamps(rows) {
      var k :| 0 <= k < |init| && init[k].timestamp == t;
      assert rows[k] == init[k];
    }
  }

  /** There are never more distinct timestamps than rows, and exactly as many
      when the timestamps are pairwise distinct. */
  lemma {:induction false} TimestampsCardinality(rows: seq<Fix>)
    ensures |Timestamps(rows)| <= |rows|
    ensures DistinctTimestamps(rows) ==> |Timestamps(rows)| == |rows|
  {
    if |rows| > 0 {
      var init := rows[..|rows| - 1];
      TimestampsOfPrefix(rows);
      TimestampsCardinality(init);
      if DistinctTimestamps(rows) {
        assert DistinctTimestamps(init);
        forall k | 0 <= k < |init| ensures init[k].timestamp != rows[|rows| - 1].timestamp {
          assert init[k] == rows[k];
        }
      }
    }
  }

  /** Keeping a subsequence keeps the timestamps distinct. */
  lemma {:induction false} MatchedDistinct(emlid: seq<Fix>, rtk: seq<Fix>)
    requires DistinctTimestamps(emlid)
    ensures DistinctTimestamps(Matched(emlid, rtk))
  {
    if |emlid| > 0 {
      var init := emlid[..|emlid| - 1];
      var row := emlid[|emlid| - 1];
      assert DistinctTimestamps(init);
      MatchedDistinct(init, rtk);
      var pm := Matched(init, rtk);
      forall j | 0 <= j < |pm| ensures pm[j].timestamp != row.timestamp {
        var i :| 0 <= i < |init| && init[i] == pm[j];
        assert emlid[i] == init[i];
      }
    }
  }

  /** When the Emlid timestamps are pairwise distinct, the join also has at most
      as many entries as there are RTK records. */
  lemma {:induction false} DistinctEmlidBoundedByRtk(emlid: seq<Fix>, rtk: seq<Fix>)
    requires DistinctTimestamps(emlid)
    ensures CompareTimestamps(emlid, rtk).Size() <= |rtk|
  {
    var m := Matched(emlid, rtk);
    MatchedDistinct(emlid, rtk);
    TimestampsCardinality(m);
    TimestampsCardinality(rtk);
    assert Timestamps(m) <= Timestamps(rtk) by {
      forall t | t in Timestamps(m) ensures t in Timestamps(rtk) {
        var k :| 0 <= k < |m| && m[k].timestamp == t;
      }
    }
    SubsetCardinality(Timestamps(m), Timestamps(rtk));
    assert CompareTimestamps(emlid, rtk).Size() == |m|;
  }

  lemma {:induction false} SubsetCardinality(a: set<string>, b: set<string>)
    requires a <= b
    ensures |a| <= |b|
  {
    assert b == a + (b - a);
  }

  /** Without distinct Emlid timestamps the join can be longer than the RTK
      input: two Emlid records at one epoch both pair with the single RTK record. */
  lemma {:induction false} DuplicateEmlidExceedsRtk()
    ensures
      var f := Fix("11:52:38.000", -75.75, 5.0);
      CompareTimestamps([f, f], [f]).Size() == 2 > |[f]|
  {
    var f := Fix("11:52:38.000", -75.75, 5.0);
    assert [f][..0] == [];
    assert [f, f][..1] == [f];
    TimestampsOfPrefix([f]);
    assert Timestamps([]) == {};
    assert Matched([f], [f]) == [f];
    assert Matched([f, f], [f]) == [f, f];
  }
}
