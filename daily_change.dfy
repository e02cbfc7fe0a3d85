/**
 * Daily changes of a case table: each country column minus itself shifted
 * down one row, gaps filled with zero, Date appended as the last column.
 */
module DailyChange {
  import opened Wrappers
  import opened Frames

  /** A table of whole numbers with the country columns first and Date last. */
  datatype Changes = Changes(names: seq<string>, dates: seq<Date>, cols: seq<seq<int>>)
  {
    function Header(): seq<string>
    {
      names + ["Date"]
    }
  }

  /** `x - x.shift(1)`, then `fillna(0)`: a gap on either side gives zero. */
  function Diff(col: seq<Option<int>>): (d: seq<int>)
    ensures |d| == |col|
    ensures |col| > 0 ==> d[0] == 0
    ensures forall i :: 1 <= i < |col| ==> d[i] == if col[i].Some? && col[i - 1].Some? then col[i].value - col[i - 1].value else 0
  {
    seq(|col|, i requires 0 <= i < |col| =>
      if i > 0 && col[i].Some? && col[i - 1].Some? then col[i].value - col[i - 1].value else 0)
  }

  /** `get_daily_changes`. */
  function GetDailyChanges(t: Table<int>): (r: Changes)
    requires t.Valid()
    ensures r.names == t.names && r.dates == t.dates && |r.cols| == |t.names|
    ensures r.Header() == t.names + ["Date"]
    ensures forall j :: 0 <= j < |r.cols| ==> |r.cols[j]| == |t.dates| && r.cols[j] == Diff(t.cols[j])
  {
    Changes(t.names, t.dates, seq(|t.cols|, j requires 0 <= j < |t.cols| => Diff(t.cols[j])))
  }

  function Sum(s: seq<int>): int
  {
    if s == [] then 0 else Sum(s[..|s| - 1]) + s[|s| - 1]
  }

  /** Adding up the changes on rows 1..t gives back the growth from row 0 to row t. */
  lemma {:induction false} Telescoping(col: seq<Option<int>>, t: nat)
    requires t < |col| && forall i :: 0 <= i < |col| ==> col[i].Some?
    ensures Sum(Diff(col)[1..t + 1]) == col[t].value - col[0].value
  {
    if t > 0 {
      Telescoping(col, t - 1);
      assert Diff(col)[1..t + 1][..t - 1] == Diff(col)[1..t];
    }
  }

  /** The running total of the changes, from the first value, rebuilds the column. */
  lemma Reconstruct(col: seq<Option<int>>, t: nat)
    requires t < |col| && forall i :: 0 <= i < |col| ==> col[i].Some?
    ensures col[0].value + Sum(Diff(col)[..t + 1]) == col[t].value
  {
    Telescoping(col, t);
    SumCons(Diff(col)[..t + 1]);
    assert Diff(col)[..t + 1][1..] == Diff(col)[1..t + 1];
  }

  lemma {:induction false} SumCons(s: seq<int>)
    requires s != []
    ensures Sum(s) == s[0] + Sum(s[1..])
  {
    if |s| > 1 {
      SumCons(s[..|s| - 1]);
      assert s[..|s| - 1][1..] == s[1..][..|s| - 2];
    }
  }
}
