/** The tally of `find_quality`: over every data row of a solution file,
    whatever its flag, the share of quality-1 (fixed) and quality-2 (float)
    rows as percentages. */
module Quality {
  import opened Wrappers
  import opened Records
  import Loader

  /** `[percentage of Q1, percentage of Q2]`. */
  datatype QualitySummary = QualitySummary(pctQ1: real, pctQ2: real)

  /** How many entries of `flags` equal `flag`. */
  function Count(flags: seq<int>, flag: int): nat {
    if |flags| == 0 then 0
    else Count(flags[..|flags| - 1], flag) + (if flags[|flags| - 1] == flag then 1 else 0)
  }

  /** Tallying two parts of a column adds their tallies. */
  lemma {:induction false} CountAppend(a: seq<int>, b: seq<int>, flag: int)
    ensures Count(a + b, flag) == Count(a, flag) + Count(b, flag)
    decreases |b|
  {
    if |b| == 0 {
      assert a + b == a;
    } else {
      assert (a + b)[..|a + b| - 1] == a + b[..|b| - 1];
      CountAppend(a, b[..|b| - 1], flag);
    }
  }

  /** A column holding one flag value counts all its rows for that flag and
      none for another. */
  lemma {:induction false} CountConstant(flags: seq<int>, flag: int, other: int)
    requires flag != other
    requires forall i :: 0 <= i < |flags| ==> flags[i] == flag
    ensures Count(flags, flag) == |flags| && Count(flags, other) == 0
  {
    if |flags| > 0 {
      CountConstant(flags[..|flags| - 1], flag, other);
    }
  }

  /** `(n / total) * 100`, the script's conversion to a percentage. */
  function Percent(n: nat, total: nat): real
    requires total > 0
  {
    (n as real / total as real) * 100.0
  }

  /** Every entry is a fixed or a float flag. */
  ghost predicate OnlyFixedOrFloat(flags: seq<int>) {
    forall i :: 0 <= i < |flags| ==> flags[i] == 1 || flags[i] == 2
  }

  /** The two counts never exceed the number of rows, and they reach it exactly
      when no other flag occurs. */
  lemma {:induction false} CountFixedFloatBound(flags: seq<int>)
    ensures Count(flags, 1) + Count(flags, 2) <= |flags|
    ensures Count(flags, 1) + Count(flags, 2) == |flags| <==> OnlyFixedOrFloat(flags)
  {
    if |flags| > 0 {
      var init := flags[..|flags| - 1];
      CountFixedFloatBound(init);
      if OnlyFixedOrFloat(flags) {
        assert OnlyFixedOrFloat(init) by {
          forall i | 0 <= i < |init| ensures init[i] == 1 || init[i] == 2 {
            assert init[i] == flags[i];
          }
        }
      }
    }
  }

  /** A share of a positive total lies in [0, 100] and is 100 only for the whole. */
  lemma {:induction false} PercentRange(n: nat, total: nat)
    requires 0 < total && n <= total
    ensures 0.0 <= Percent(n, total) <= 100.0
    ensures Percent(n, total) == 100.0 <==> n == total
  {
    var x := n as real / total as real;
    assert x * total as real == n as real;
    assert x <= 1.0 by {
      if x > 1.0 {
        assert x * total as real > 1.0 * total as real;
      }
    }
  }

  /** Percentages of one total add like the counts they come from. */
  lemma {:induction false} PercentAdd(a: nat, b: nat, total: nat)
    requires 0 < total
    ensures Percent(a, total) + Percent(b, total) == Percent(a + b, total)
  {
  }

  /** `find_quality` on the flag column read after the header: `None` where the
      script divides by a zero row count, otherwise the two shares, each in
      [0, 100], together at most 100 and exactly 100 when no other flag occurs. */
  method FindQuality(flags: seq<int>) returns (r: Option<QualitySummary>)
    ensures r.None? <==> |flags| == 0
    ensures r.Some? ==> r.value.pctQ1 == Percent(Count(flags, 1), |flags|)
    ensures r.Some? ==> r.value.pctQ2 == Percent(Count(flags, 2), |flags|)
    ensures r.Some? ==> 0.0 <= r.value.pctQ1 <= 100.0 && 0.0 <= r.value.pctQ2 <= 100.0
    ensures r.Some? ==> r.value.pctQ1 + r.value.pctQ2 <= 100.0
    ensures r.Some? ==> (r.value.pctQ1 + r.value.pctQ2 == 100.0 <==> OnlyFixedOrFloat(flags))
  {
    var total: nat := 0;
    var q1: nat := 0;
    var q2: nat := 0;
    for i := 0 to |flags|
      invariant total == i
      invariant q1 == Count(flags[..i], 1)
      invariant q2 == Count(flags[..i], 2)
    {
      assert flags[..i + 1][..i] == flags[..i];
      if flags[i] == 1 {
        q1 := q1 + 1;
      } else if flags[i] == 2 {
        q2 := q2 + 1;
      }
      total := total + 1;
    }
    assert flags[..|flags|] == flags;
    if total == 0 {
      return None;
    }
    CountFixedFloatBound(flags);
    PercentRange(q1, total);
    PercentRange(q2, total);
    PercentAdd(q1, q2, total);
    PercentRange(q1 + q2, total);
    r := Some(QualitySummary(Percent(q1, total), Percent(q2, total)));
  }

  /** The flags of a file's rows, column 5. */
  function Flags(rows: seq<SolutionRow>): seq<int>
  {
    seq(|rows|, i requires 0 <= i < |rows| => rows[i].quality)
  }

  /** The quality-1 share counts exactly the records the loader keeps from the
      same rows. */
  lemma {:induction false} FixedShareIsLoadedShare(rows: seq<SolutionRow>)
    ensures Count(Flags(rows), 1) == |Loader.LoadPosFile(rows)|
  {
    Loader.LoadPosFileLength(rows);
    CountFlagsFixed(rows);
  }

  /** Counting flag 1 in the flag column counts the rows the loader keeps. */
  lemma {:induction false} CountFlagsFixed(rows: seq<SolutionRow>)
    ensures Count(Flags(rows), 1) == Loader.CountFixed(rows)
  {
    if |rows| > 0 {
      var init := rows[..|rows| - 1];
      CountFlagsFixed(init);
      assert Flags(rows)[..|rows| - 1] == Flags(init);
    }
  }

  /** Ten rows, six fixed, three float and one with flag 5: 60 % and 30 %. */
  method TenRowScenario() returns (r: Option<QualitySummary>)
    ensures r == Some(QualitySummary(60.0, 30.0))
  {
    var fixed := seq(6, _ => 1);
    var float := seq(3, _ => 2);
    var flags := fixed + float + [5];
    CountAppend(fixed + float, [5], 1);
    CountAppend(fixed + float, [5], 2);
    CountAppend(fixed, float, 1);
    CountAppend(fixed, float, 2);
    CountConstant(fixed, 1, 2);
    CountConstant(float, 2, 1);
    assert [5][..0] == [];
    r := FindQuality(flags);
  }
}
