/**
 * Confirmed cases counted from the day each country reached a number of
 * cases: every country column keeps only its values at or above the
 * threshold, packed from row 0, and the columns are lined up by position.
 */
module SinceT0 {
  import opened Wrappers
  import opened Order
  import opened Frames

  /** Whether row i of a column is kept: present and at or above n. */
  predicate Reaches(col: seq<Option<int>>, n: int, i: nat)
    requires i < |col|
  {
    col[i].Some? && col[i].value >= n
  }

  /** The rows from `from` on that reach n, in increasing order. */
  function ReachedFrom(col: seq<Option<int>>, n: int, from: nat): (p: seq<nat>)
    requires from <= |col|
    ensures forall m :: 0 <= m < |p| ==> from <= p[m] < |col| && Reaches(col, n, p[m])
    ensures forall m, m' :: 0 <= m < m' < |p| ==> p[m] < p[m']
    ensures forall i :: from <= i < |col| && Reaches(col, n, i) ==> i in p
    decreases |col| - from
  {
    if from == |col| then []
    else
      var rest := ReachedFrom(col, n, from + 1);
      if Reaches(col, n, from) then [from] + rest else rest
  }

  /**
   * `t0.loc[t0[country] >= n]` then `reset_index`: the values of the rows
   * that reach n, renumbered from 0. This is a filter, not a cut at the first
   * row that reaches n: a later row that drops below n again is skipped.
   */
  function Kept(col: seq<Option<int>>, n: int): (k: seq<int>)
    ensures forall m :: 0 <= m < |k| ==> k[m] >= n
  {
    var p := ReachedFrom(col, n, 0);
    seq(|p|, m requires 0 <= m < |p| => col[p[m]].value)
  }

  /** Kept holds the values of the rows that reach n, one per such row, in row order. */
  lemma KeptIsFilter(col: seq<Option<int>>, n: int)
    ensures var p := ReachedFrom(col, n, 0); var k := Kept(col, n);
      && |k| == |p| <= |col|
      && forall m :: 0 <= m < |k| ==> col[p[m]] == Some(k[m])
  {
    LengthOfIncreasing(ReachedFrom(col, n, 0), |col|);
  }

  /** An increasing sequence of positions below len has at most len entries. */
  lemma {:induction false} LengthOfIncreasing(p: seq<nat>, len: nat)
    requires forall m :: 0 <= m < |p| ==> p[m] < len
    requires forall m, m' :: 0 <= m < m' < |p| ==> p[m] < p[m']
    ensures |p| <= len
  {
    if p != [] {
      var last := p[|p| - 1];
      LengthOfIncreasing(p[..|p| - 1], last);
    }
  }

  /** A country whose column never reaches n keeps nothing. */
  lemma {:induction false} NeverReached(col: seq<Option<int>>, n: int, from: nat)
    requires from <= |col|
    requires forall i :: from <= i < |col| ==> !Reaches(col, n, i)
    ensures ReachedFrom(col, n, from) == []
    ensures from == 0 ==> Kept(col, n) == []
    decreases |col| - from
  {
    if from < |col| {
      NeverReached(col, n, from + 1);
    }
  }

  function MaxLength(ks: seq<seq<int>>): (m: nat)
    ensures forall j :: 0 <= j < |ks| ==> |ks[j]| <= m
    ensures ks != [] ==> exists j :: 0 <= j < |ks| && |ks[j]| == m
    ensures ks == [] ==> m == 0
  {
    if ks == [] then 0
    else
      var rest := MaxLength(ks[1..]);
      assert forall j :: 1 <= j < |ks| ==> ks[j] == ks[1..][j - 1];
      if |ks[0]| >= rest then |ks[0]| else rest
  }

  /** Outer merge on the row positions: positions 0..longest-1, a gap where a column is shorter. */
  function AlignByPosition(ks: seq<seq<int>>): (g: seq<seq<Option<int>>>)
    ensures |g| == |ks|
    ensures forall j :: 0 <= j < |ks| ==> |g[j]| == MaxLength(ks)
    ensures forall j, i :: 0 <= j < |ks| && 0 <= i < MaxLength(ks) ==>
              g[j][i] == if i < |ks[j]| then Some(ks[j][i]) else None
  {
    seq(|ks|, j requires 0 <= j < |ks| =>
      seq(MaxLength(ks), i requires 0 <= i < MaxLength(ks) => if i < |ks[j]| then Some(ks[j][i]) else None))
  }

  /**
   * `get_cases_since_t0`: the countries in sorted order, each column filtered
   * to the values at or above `nStart`, aligned by position, and cut to the
   * first `nStart` rows (the threshold doubles as the row limit).
   */
  method GetCasesSinceT0(t: Table<int>, nStart: int) returns (r: Result<Grid<int>>)
    requires t.Valid()
    ensures r.Ok? <==> |t.names| > 0
    ensures r.Err? ==> r.error == EmptyReduce
    ensures r.Ok? ==> var g := r.value; var ks := KeptColumns(t, g.names, nStart);
      && g.Valid() && g.names == Countries(t)
      && g.height == HeadLength(MaxLength(ks), nStart)
      && forall j, i :: 0 <= j < |g.names| && 0 <= i < g.height ==>
           g.cols[j][i] == if i < |ks[j]| then Some(ks[j][i]) else None
  {
    var allCountries := Countries(t);
    var confT0: seq<seq<int>> := [];
    for c := 0 to |allCountries|
      invariant |confT0| == c
      invariant forall j :: 0 <= j < c ==> confT0[j] == Kept(t.Column(allCountries[j]), nStart)
    {
      confT0 := confT0 + [Kept(t.Column(allCountries[c]), nStart)];
    }
    if confT0 == [] {
      return Err(EmptyReduce);
    }
    assert confT0 == KeptColumns(t, allCountries, nStart);
    var g := AlignedHead(allCountries, confT0, nStart);
    r := Ok(g);
  }

  /** The position-aligned columns under the country names, cut by `head(n)`. */
  function AlignedHead(names: seq<string>, ks: seq<seq<int>>, n: int): (g: Grid<int>)
    requires |ks| == |names| && Distinct(names)
    ensures g.Valid() && g.names == names && g.height == HeadLength(MaxLength(ks), n)
    ensures forall j, i :: 0 <= j < |names| && 0 <= i < g.height ==>
              g.cols[j][i] == if i < |ks[j]| then Some(ks[j][i]) else None
  {
    var joined := AlignByPosition(ks);
    Grid(names, HeadLength(MaxLength(ks), n), seq(|joined|, j requires 0 <= j < |joined| => Head(joined[j], n)))
  }

  /** The kept values of each named country column (nothing for a name the table lacks). */
  function KeptColumns(t: Table<int>, names: seq<string>, n: int): (ks: seq<seq<int>>)
    requires t.Valid()
    ensures |ks| == |names|
    ensures forall j :: 0 <= j < |names| && names[j] in t.names ==> ks[j] == Kept(t.Column(names[j]), n)
  {
    seq(|names|, j requires 0 <= j < |names| => if names[j] in t.names then Kept(t.Column(names[j]), n) else [])
  }

  /** `sorted(df.drop('Date', axis=1).columns)`: every country once, in increasing order. */
  function Countries(t: Table<int>): (s: seq<string>)
    requires t.Valid()
    ensures Distinct(s) && StrictlySorted(s)
    ensures forall c :: c in s <==> c in t.names
    ensures forall j :: 0 <= j < |s| ==> s[j] in t.names
  {
    SortedDistinctIsStrict(Sort(t.names), t.names);
    Sort(t.names)
  }

  /** Sorting distinct names gives a strictly increasing list of the same names. */
  lemma SortedDistinctIsStrict(s: seq<string>, names: seq<string>)
    requires s == Sort(names) && Distinct(names)
    ensures Distinct(s) && StrictlySorted(s) && forall c :: c in s <==> c in names
  {
    assert forall c :: c in s <==> c in multiset(s);
    assert forall c :: c in names <==> c in multiset(names);
    forall i, j | 0 <= i < j < |s| ensures s[i] != s[j] {
      if s[i] == s[j] {
        MultisetTwice(s, i, j);
        DistinctMultiset(names, s[i]);
      }
    }

  }

  lemma MultisetTwice(s: seq<string>, i: nat, j: nat)
    requires i < j < |s| && s[i] == s[j]
    ensures multiset(s)[s[i]] >= 2
  {
    assert s == s[..i] + [s[i]] + s[i + 1..j] + [s[j]] + s[j + 1..];
  }

  lemma {:induction false} DistinctMultiset(s: seq<string>, x: string)
    requires Distinct(s)
    ensures multiset(s)[x] <= 1
  {
    if s != [] {
      DistinctTail(s);
      DistinctMultiset(s[1..], x);
      assert s == [s[0]] + s[1..];
    }
  }
}
