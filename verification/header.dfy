/** The header skipper of `find_data_start`: a solution file opens with an
    unknown number of `%` comment lines, and the first data line is recognised
    by a first column that contains a year beginning with "202". The function
    works on the file's first column, already split into tokens. */
module Header {
  import opened Wrappers

  /** The marker searched for in each first-column token. */
  const YearMarker: string := "202"

  /** `pat` occurs in `s` starting at position `i`. */
  ghost predicate OccursAt(s: string, pat: string, i: int) {
    0 <= i && i + |pat| <= |s| && s[i..i + |pat|] == pat
  }

  /** Python's `pat in s` on strings, stated declaratively. */
  ghost predicate Occurs(s: string, pat: string) {
    exists i :: OccursAt(s, pat, i)
  }

  /** Executable substring test: tries every start position from the left. */
  function HasSubstring(s: string, pat: string): bool
    decreases |s|
  {
    if |s| < |pat| then false
    else if s[..|pat|] == pat then true
    else HasSubstring(s[1..], pat)
  }

  /** The executable test agrees with the declarative definition. */
  lemma {:induction false} HasSubstringCorrect(s: string, pat: string)
    ensures HasSubstring(s, pat) <==> Occurs(s, pat)
    decreases |s|
  {
    if |s| < |pat| {
    } else if s[..|pat|] == pat {
      assert OccursAt(s, pat, 0);
    } else {
      HasSubstringCorrect(s[1..], pat);
      if Occurs(s[1..], pat) {
        var i :| OccursAt(s[1..], pat, i);
        SliceOfTail(s, i, |pat|);
        assert OccursAt(s, pat, i + 1);
      }
      if Occurs(s, pat) {
        var i :| OccursAt(s, pat, i);
        assert i != 0;
        SliceOfTail(s, i - 1, |pat|);
        assert OccursAt(s[1..], pat, i - 1);
      }
    }
  }

  /** A slice of `s[1..]` is the slice of `s` one position further on. */
  lemma {:induction false} SliceOfTail(s: string, i: nat, n: nat)
    requires i + n < |s|
    ensures s[1..][i..i + n] == s[i + 1..i + 1 + n]
  {
  }

  /** Token `k` is the first one of `column` that contains the year marker. */
  ghost predicate IsFirstDataRow(column: seq<string>, k: int) {
    && 0 <= k < |column|
    && Occurs(column[k], YearMarker)
    && forall j :: 0 <= j < k ==> !Occurs(column[j], YearMarker)
  }

  /** `find_data_start`: the index of the first token holding "202", minus one
      (the number of lines to skip so that the line just before the data is
      read as the table header); `None` when no token holds it, where the
      script's loop runs off its end. */
  function FindDataStart(column: seq<string>): (r: Option<int>)
    ensures r.None? <==> forall k :: 0 <= k < |column| ==> !Occurs(column[k], YearMarker)
    ensures r.Some? ==> r.value >= -1 && IsFirstDataRow(column, r.value + 1)
  {
    ScanFrom(column, 0)
  }

  /** The loop of `find_data_start` from counter value `i` on. */
  function ScanFrom(column: seq<string>, i: nat): (r: Option<int>)
    requires i <= |column|
    requires forall j :: 0 <= j < i ==> !Occurs(column[j], YearMarker)
    ensures r.None? <==> forall k :: 0 <= k < |column| ==> !Occurs(column[k], YearMarker)
    ensures r.Some? ==> r.value >= i - 1 && IsFirstDataRow(column, r.value + 1)
    decreases |column| - i
  {
    HasSubstringCorrect(if i < |column| then column[i] else "", YearMarker);
    if i == |column| then None
    else if HasSubstring(column[i], YearMarker) then Some(i - 1)
    else ScanFrom(column, i + 1)
  }

  /** A file whose very first token is a date gives -1, the least possible value. */
  lemma {:induction false} FirstLineIsData()
    ensures FindDataStart(["2024/05/28", "2024/05/28"]) == Some(-1)
  {
    HasSubstringCorrect("2024/05/28", YearMarker);
    assert OccursAt("2024/05/28", YearMarker, 0);
  }

  /** Two comment tokens before the first date give 1. */
  lemma {:induction false} TwoHeaderLines()
    ensures FindDataStart(["%", "%", "2024/05/28"]) == Some(1)
  {
    HasSubstringCorrect("2024/05/28", YearMarker);
    assert OccursAt("2024/05/28", YearMarker, 0);
    HasSubstringCorrect("%", YearMarker);
  }

  /** A file with no date at all gives no value. */
  lemma {:induction false} NoDataLine()
    ensures FindDataStart(["%", "%", "%"]) == None
  {
    HasSubstringCorrect("%", YearMarker);
  }
}
