/** `calc_diff`: run the timestamp join, take the absolute altitude difference of
    every matched pair, pair it with the Emlid longitude for plotting, and
    average the differences. The mean of no differences has no value (numpy
    yields NaN there); it is `None` here. */
module Difference {
  import opened Wrappers
  import opened Records
  import opened Aligner

  /** One row `[longitude, difference]` of `diff_plot`: an Emlid longitude and
      the absolute height difference at that epoch. */
  datatype DiffPoint = DiffPoint(longitude: real, heightDiff: real)

  /** `diff_plot` and `avg`. */
  datatype HeightDiff = HeightDiff(diffPlot: seq<DiffPoint>, avg: Option<real>)

  function Abs(x: real): real {
    if x < 0.0 then -x else x
  }

  function Sum(xs: seq<real>): real {
    if |xs| == 0 then 0.0 else Sum(xs[..|xs| - 1]) + xs[|xs| - 1]
  }

  /** Only non-negative values. */
  ghost predicate NonNegative(xs: seq<real>) {
    forall i :: 0 <= i < |xs| ==> xs[i] >= 0.0
  }

  lemma {:induction false} SumNonNegative(xs: seq<real>)
    ensures NonNegative(xs) ==> Sum(xs) >= 0.0
  {
    if |xs| > 0 {
      SumNonNegative(xs[..|xs| - 1]);
      if NonNegative(xs) {
        assert NonNegative(xs[..|xs| - 1]);
      }
    }
  }

  /** `m` is the arithmetic mean of the non-empty `xs`: `|xs|` copies of it add
      up to their sum. */
  ghost predicate IsMeanOf(m: real, xs: seq<real>) {
    |xs| > 0 && m * |xs| as real == Sum(xs)
  }

  /** `np.mean`: `None` for no values; otherwise their mean, which is
      non-negative when every value is. */
  function Mean(xs: seq<real>): (m: Option<real>)
    ensures m.None? <==> |xs| == 0
    ensures m.Some? ==> IsMeanOf(m.value, xs)
    ensures m.Some? && NonNegative(xs) ==> m.value >= 0.0
  {
    SumNonNegative(xs);
    if |xs| == 0 then None else Some(Sum(xs) / |xs| as real)
  }

  /** The mean of a single value is that value. */
  lemma {:induction false} MeanOfOne(x: real)
    ensures Mean([x]) == Some(x)
  {
    assert [x][..0] == [];
    assert Sum([x]) == x;
  }

  /** `np.abs(emlid_bias - rtk_bias)`, pair by pair. */
  function Diffs(a: Alignment): (d: seq<real>)
    requires a.Parallel()
    ensures |d| == a.Size() && NonNegative(d)
    ensures forall i :: 0 <= i < |d| ==> d[i] == Abs(a.emlidBias[i] - a.rtkBias[i])
  {
    seq(a.Size(), i requires 0 <= i < a.Size() => Abs(a.emlidBias[i] - a.rtkBias[i]))
  }

  /** `plot` has one row per matched Emlid record, in Emlid order: the
      record's longitude and its non-negative absolute height difference from
      the last RTK row with the same timestamp. */
  ghost predicate FollowsMatched(plot: seq<DiffPoint>, emlid: seq<Fix>, rtk: seq<Fix>) {
    && |plot| == |Matched(emlid, rtk)|
    && forall i :: 0 <= i < |plot| ==>
      && plot[i].longitude == Matched(emlid, rtk)[i].longitude
      && plot[i].heightDiff
         == Abs(Matched(emlid, rtk)[i].altitude - LastWith(rtk, Matched(emlid, rtk)[i].timestamp).altitude)
      && plot[i].heightDiff >= 0.0
  }

  /** `calc_diff(emlid, rtk)`: one plotted point per matched pair, in Emlid
      order, holding the Emlid longitude and the absolute difference from the
      altitude of the last RTK row at that epoch; the average is `None` exactly
      when nothing matched, and otherwise the non-negative mean of the plotted
      differences. */
  function CalcDiff(emlid: seq<Fix>, rtk: seq<Fix>): (r: HeightDiff)
    ensures FollowsMatched(r.diffPlot, emlid, rtk)
    ensures r.avg.None? <==> |Matched(emlid, rtk)| == 0
    ensures r.avg.Some? ==> r.avg.value >= 0.0 && IsMeanOf(r.avg.value, Heights(r.diffPlot))
  {
    var a := CompareTimestamps(emlid, rtk);
    var diff := Diffs(a);
    // `np.column_stack((longitude, diff))` with the Emlid longitudes.
    var plot := seq(|diff|, i requires 0 <= i < |diff| => DiffPoint(a.emlidToPlot[i].longitude, diff[i]));
    CalcDiffPlot(emlid, rtk, a, diff, plot);
    HeightDiff(plot, Mean(diff))
  }

  /** The plot and mean that `CalcDiff` builds from the join have the
      properties its contract promises. */
  lemma {:induction false} CalcDiffPlot(emlid: seq<Fix>, rtk: seq<Fix>, a: Alignment, diff: seq<real>,
                                        plot: seq<DiffPoint>)
    requires a == CompareTimestamps(emlid, rtk) && diff == Diffs(a)
    requires |plot| == |diff|
    requires forall i :: 0 <= i < |plot| ==> plot[i] == DiffPoint(a.emlidToPlot[i].longitude, diff[i])
    ensures FollowsMatched(plot, emlid, rtk)
    ensures Mean(diff).None? <==> |Matched(emlid, rtk)| == 0
    ensures Mean(diff).Some? ==> Mean(diff).value >= 0.0 && IsMeanOf(Mean(diff).value, Heights(plot))
  {
    CalcDiffPoints(emlid, rtk, a, plot);
    MeanOfPlot(plot, diff);
  }

  /** The second column of a plot: its heights. */
  function Heights(plot: seq<DiffPoint>): seq<real>
  {
    seq(|plot|, i requires 0 <= i < |plot| => plot[i].heightDiff)
  }

  /** The mean of the plotted differences, seen through the plot's heights. */
  lemma {:induction false} MeanOfPlot(plot: seq<DiffPoint>, diff: seq<real>)
    requires |plot| == |diff| && NonNegative(diff)
    requires forall i :: 0 <= i < |plot| ==> plot[i].heightDiff == diff[i]
    ensures forall i :: 0 <= i < |plot| ==> plot[i].heightDiff >= 0.0
    ensures Mean(diff).Some? ==> Mean(diff).value >= 0.0 && IsMeanOf(Mean(diff).value, Heights(plot))
  {
    assert Heights(plot) == diff;
  }

  /** Each plotted point of `CalcDiff` pairs the matched Emlid longitude with
      the difference from the last RTK row at that epoch. */
  lemma {:induction false} CalcDiffPoints(emlid: seq<Fix>, rtk: seq<Fix>, a: Alignment, plot: seq<DiffPoint>)
    requires a == CompareTimestamps(emlid, rtk)
    requires |plot| == a.Size()
    requires forall i :: 0 <= i < |plot| ==>
      plot[i] == DiffPoint(a.emlidToPlot[i].longitude, Abs(a.emlidBias[i] - a.rtkBias[i]))
    ensures FollowsMatched(plot, emlid, rtk)
  {
    var m := Matched(emlid, rtk);
    forall i | 0 <= i < |plot|
      ensures plot[i].longitude == m[i].longitude
      ensures plot[i].heightDiff == Abs(m[i].altitude - LastWith(rtk, m[i].timestamp).altitude)
      ensures plot[i].heightDiff >= 0.0
    {
      assert a.rtkToPlot[i] == PointOf(LastWith(rtk, m[i].timestamp));
    }
  }

  /** What one Emlid record adds to the summed differences against a built
      dictionary: its difference when its timestamp is a key, else nothing. */
  function Contribution(index: map<string, Fix>, row: Fix): real {
    if row.timestamp in index then Abs(row.altitude - index[row.timestamp].altitude) else 0.0
  }

  /** What one Emlid record adds to the number of matched pairs. It is a
      `real` so that `SumOver` totals it the same way it totals `Contribution`. */
  function Hit(index: map<string, Fix>, row: Fix): real {
    if row.timestamp in index then 1.0 else 0.0
  }

  /** The sum of `f(index, row)` over the rows. */
  function SumOver(rows: seq<Fix>, index: map<string, Fix>, f: (map<string, Fix>, Fix) -> real): real {
    if |rows| == 0 then 0.0 else SumOver(rows[..|rows| - 1], index, f) + f(index, rows[|rows| - 1])
  }

  lemma {:induction false} SumOverAppend(a: seq<Fix>, b: seq<Fix>, index: map<string, Fix>,
                                         f: (map<string, Fix>, Fix) -> real)
    ensures SumOver(a + b, index, f) == SumOver(a, index, f) + SumOver(b, index, f)
    decreases |b|
  {
    if |b| == 0 {
      assert a + b == a;
    } else {
      assert (a + b)[..|a + b| - 1] == a + b[..|b| - 1];
      SumOverAppend(a, b[..|b| - 1], index, f);
    }
  }

  /** Taking the same record out of two permutations of each other leaves
      permutations of each other. */
  lemma {:induction false} RemoveFromBoth(a: seq<Fix>, x: Fix, b1: seq<Fix>, b2: seq<Fix>)
    requires multiset(a + [x]) == multiset(b1 + [x] + b2)
    ensures multiset(a) == multiset(b1 + b2)
  {
    calc {
      multiset(a);
      multiset(a + [x]) - multiset{x};
      multiset(b1 + [x] + b2) - multiset{x};
      (multiset(b1) + multiset{x} + multiset(b2)) - multiset{x};
      multiset(b1) + multiset(b2);
      multiset(b1 + b2);
    }
  }

  /** Moving one record to the end of the rows leaves a per-record sum unchanged. */
  lemma {:induction false} SumOverMoveToEnd(b1: seq<Fix>, x: Fix, b2: seq<Fix>, index: map<string, Fix>,
                                            f: (map<string, Fix>, Fix) -> real)
    ensures SumOver(b1 + [x] + b2, index, f) == SumOver(b1 + b2, index, f) + f(index, x)
  {
    SumOverAppend(b1 + [x], b2, index, f);
    SumOverAppend(b1, [x], index, f);
    SumOverAppend(b1, b2, index, f);
    assert [x][..0] == [];
  }

  /** A position at which `x` occurs in `b`. */
  function PositionOf(b: seq<Fix>, x: Fix): (i: nat)
    requires x in b
    ensures i < |b| && b[i] == x
  {
    if b[0] == x then 0 else 1 + PositionOf(b[1..], x)
  }

  lemma {:induction false} SplitAround(b: seq<Fix>, i: nat)
    requires i < |b|
    ensures b == b[..i] + [b[i]] + b[i + 1..]
  {
  }

  /** A per-record sum does not depend on the order of the records. */
  lemma {:induction false} SumOverPermutation(a: seq<Fix>, b: seq<Fix>, index: map<string, Fix>,
                                              f: (map<string, Fix>, Fix) -> real)
    requires multiset(a) == multiset(b)
    ensures SumOver(a, index, f) == SumOver(b, index, f)
    decreases |a|
  {
    if |a| == 0 {
      assert |b| == |multiset(b)| == 0;
    } else {
      var x := a[|a| - 1];
      var a' := a[..|a| - 1];
      assert a == a' + [x];
      assert x in multiset(b);
      var i := PositionOf(b, x);
      var b1, b2 := b[..i], b[i + 1..];
      SplitAround(b, i);
      RemoveFromBoth(a', x, b1, b2);
      SumOverPermutation(a', b1 + b2, index, f);
      SumOverMoveToEnd(b1, x, b2, index, f);
    }
  }

  /** One more pair adds one more difference. */
  lemma {:induction false} DiffsSnoc(a: Alignment, p: Point, q: Point, e: real, r: real)
    requires a.Parallel()
    ensures Diffs(Alignment(a.emlidToPlot + [p], a.rtkToPlot + [q], a.emlidBias + [e], a.rtkBias + [r]))
         == Diffs(a) + [Abs(e - r)]
  {
    var a' := Alignment(a.emlidToPlot + [p], a.rtkToPlot + [q], a.emlidBias + [e], a.rtkBias + [r]);
    var d, d' := Diffs(a), Diffs(a');
    forall i | 0 <= i < |d'| ensures d'[i] == (d + [Abs(e - r)])[i] {
      if i < |d| {
        assert a'.emlidBias[i] == a.emlidBias[i] && a'.rtkBias[i] == a.rtkBias[i];
      }
    }
  }

  /** The summed differences and the number of pairs of a join are per-record
      sums over the Emlid records. */
  lemma {:induction false} JoinTotals(emlid: seq<Fix>, index: map<string, Fix>)
    ensures Sum(Diffs(Join(emlid, index))) == SumOver(emlid, index, Contribution)
    ensures Join(emlid, index).Size() as real == SumOver(emlid, index, Hit)
  {
    if |emlid| > 0 {
      var init := emlid[..|emlid| - 1];
      var row := emlid[|emlid| - 1];
      JoinTotals(init, index);
      var a := Join(init, index);
      var a' := Join(emlid, index);
      var d := Diffs(a);
      var d' := Diffs(a');
      if row.timestamp in index {
        var hit := index[row.timestamp];
        DiffsSnoc(a, PointOf(row), PointOf(hit), row.altitude, hit.altitude);
        assert d'[..|d|] == d;
      } else {
        assert a' == a;
      }
    }
  }

  /** Reordering the Emlid records keeps both the summed differences and the
      number of pairs. */
  lemma {:induction false} TotalsIndependentOfEmlidOrder(e1: seq<Fix>, e2: seq<Fix>, index: map<string, Fix>)
    requires multiset(e1) == multiset(e2)
    ensures Sum(Diffs(Join(e1, index))) == Sum(Diffs(Join(e2, index)))
    ensures Join(e1, index).Size() == Join(e2, index).Size()
  {
    JoinTotals(e1, index);
    JoinTotals(e2, index);
    SumOverPermutation(e1, e2, index, Contribution);
    SumOverPermutation(e1, e2, index, Hit);
  }

  /** `avg` does not depend on the order of the Emlid records. */
  lemma {:induction false} AvgIndependentOfEmlidOrder(e1: seq<Fix>, e2: seq<Fix>, rtk: seq<Fix>)
    requires multiset(e1) == multiset(e2)
    ensures CalcDiff(e1, rtk).avg == CalcDiff(e2, rtk).avg
  {
    var index := Index(rtk);
    TotalsIndependentOfEmlidOrder(e1, e2, index);
    var d1 := Diffs(Join(e1, index));
    var d2 := Diffs(Join(e2, index));
    assert |d1| == |d2| && Sum(d1) == Sum(d2);
    assert Mean(d1) == Mean(d2);
  }

  /** With two RTK rows at one epoch, `avg` does depend on the order of the RTK
      records: the later row is the one the dictionary keeps. */
  lemma {:induction false} AvgDependsOnRtkOrder(row: Fix, early: Fix, late: Fix)
    requires early.timestamp == late.timestamp == row.timestamp
    requires Abs(row.altitude - early.altitude) != Abs(row.altitude - late.altitude)
    ensures multiset([early, late]) == multiset([late, early])
    ensures CalcDiff([row], [early, late]).avg != CalcDiff([row], [late, early]).avg
  {
    SwapPair(early, late);
    SingleJoin(row, early, late);
    SingleJoin(row, late, early);
  }

  lemma {:induction false} SwapPair(x: Fix, y: Fix)
    ensures multiset([x, y]) == multiset([y, x])
  {
    assert [x, y] == [x] + [y] && [y, x] == [y] + [x];
  }

  /** Of two RTK rows at one epoch the dictionary keeps the later. */
  lemma {:induction false} TwoRowIndex(early: Fix, late: Fix)
    requires early.timestamp == late.timestamp
    ensures Index([early, late]) == map[late.timestamp := late]
  {
    var rtk := [early, late];
    assert rtk[..1] == [early] && [early][..0] == [];
  }

  /** The difference of one Emlid record against two RTK rows at its epoch is
      taken from the later one. */
  lemma {:induction false} SingleJoin(row: Fix, early: Fix, late: Fix)
    requires early.timestamp == late.timestamp == row.timestamp
    ensures CalcDiff([row], [early, late]).avg == Some(Abs(row.altitude - late.altitude))
  {
    TwoRowIndex(early, late);
    var index := Index([early, late]);
    assert [row][..0] == [];
    var a := Join([row], index);
    assert a.rtkBias == [late.altitude] && a.emlidBias == [row.altitude];
    var d := Diffs(a);
    assert d == [Abs(row.altitude - late.altitude)];
    MeanOfOne(d[0]);
  }

  /** Two Emlid epochs of which only the first also appears among the RTK
      records: one pair, differing by 0.1 in height. */
  const ScenarioEmlid: seq<Fix> := [Fix("t1", 10.0, 5.0), Fix("t2", 10.1, 5.2)]
  const ScenarioRtk: seq<Fix> := [Fix("t1", 10.0, 5.1), Fix("t3", 10.2, 5.3)]

  lemma {:induction false} ScenarioIndex()
    ensures Index(ScenarioRtk) == map["t1" := ScenarioRtk[0], "t3" := ScenarioRtk[1]]
  {
    var rtk := ScenarioRtk;
    assert rtk[..1] == [rtk[0]] && [rtk[0]][..0] == [];
    assert Index([rtk[0]]) == map["t1" := rtk[0]];
  }

  lemma {:induction false} ScenarioJoin()
    ensures Join(ScenarioEmlid, Index(ScenarioRtk))
         == Alignment([Point(10.0, 5.0)], [Point(10.0, 5.1)], [5.0], [5.1])
  {
    var emlid := ScenarioEmlid;
    ScenarioIndex();
    var index := Index(ScenarioRtk);
    assert "t2" !in index by {
      assert "t2"[1] != "t1"[1] && "t2"[1] != "t3"[1];
    }
    assert emlid[..1] == [emlid[0]] && [emlid[0]][..0] == [];
    assert Join([emlid[0]], index) == Alignment([Point(10.0, 5.0)], [Point(10.0, 5.1)], [5.0], [5.1]);
  }

  lemma {:induction false} ScenarioDiffs()
    ensures Diffs(Join(ScenarioEmlid, Index(ScenarioRtk))) == [0.1]
  {
    ScenarioJoin();
  }

  lemma {:induction false} OneMatchScenario()
    ensures CalcDiff(ScenarioEmlid, ScenarioRtk) == HeightDiff([DiffPoint(10.0, 0.1)], Some(0.1))
  {
    ScenarioJoin();
    ScenarioDiffs();
    MeanOfOne(0.1);
    var a := Alignment([Point(10.0, 5.0)], [Point(10.0, 5.1)], [5.0], [5.1]);
    var d := [0.1];
    var plot := seq(|d|, i requires 0 <= i < |d| => DiffPoint(a.emlidToPlot[i].longitude, d[i]));
    assert plot == [DiffPoint(10.0, 0.1)] by {
      assert |plot| == 1 && plot[0] == DiffPoint(10.0, 0.1);
    }
  }
}
