/**
 * Mortality rate over time: for every country, deaths as a percentage of
 * confirmed cases on the dates with confirmed cases, and the countries
 * inner-merged on Date.
 */
module Mortality {
  import opened Wrappers
  import opened Order
  import opened Frames
  import opened Utils

  /** Whether a (Confirmed, Deaths) pair passes `df['Confirmed'] > 0`; a gap never does. */
  predicate Positive(v: seq<Option<int>>)
    requires |v| == 2
  {
    v[0].Some? && v[0].value > 0
  }

  /** `Deaths / Confirmed * 100`: missing when the deaths are missing. */
  function Rate(deaths: Option<int>, confirmed: int): (m: Option<real>)
    requires confirmed > 0
    ensures m.Some? <==> deaths.Some?
    ensures m.Some? ==> m.value * confirmed as real == deaths.value as real * 100.0
  {
    if deaths.Some? then Some(deaths.value as real / confirmed as real * 100.0) else None
  }

  /** A rate is a percentage whenever the deaths are at most the confirmed cases. */
  lemma RateIsPercentage(deaths: int, confirmed: int)
    requires 0 <= deaths <= confirmed && confirmed > 0
    ensures var m := Rate(Some(deaths), confirmed).value; 0.0 <= m <= 100.0
  {
    var q := deaths as real / confirmed as real;
    assert q <= confirmed as real / confirmed as real;
  }

  /** The mortality column for one (Confirmed, Deaths) pair: missing where no rate is defined. */
  function MortalityOf(v: seq<Option<int>>): (m: seq<Option<real>>)
    requires |v| == 2
    ensures |m| == 1
  {
    if Positive(v) then [Rate(v[1], v[0].value)] else [None]
  }

  /** The rows that pass the filter, each reduced to its mortality. */
  function MortalityRows(rows: seq<Row<int>>): (out: seq<Row<real>>)
    requires forall i :: 0 <= i < |rows| ==> |rows[i].vals| == 2
    ensures forall i :: 0 <= i < |out| ==> |out[i].vals| == 1
  {
    if rows == [] then []
    else
      (if Positive(rows[0].vals) then [Row(rows[0].key, MortalityOf(rows[0].vals))] else [])
      + MortalityRows(rows[1..])
  }

  /** The Date and Mortality columns of the filtered frame. */
  function MortalityFrame(f: Frame<int>): (m: Frame<real>)
    requires f.Valid() && f.width == 2 && UniqueKeys(f)
    ensures m.Valid() && m.width == 1 && UniqueKeys(m)
  {
    MortalityRowsDistinct(f.rows);
    Frame(1, MortalityRows(f.rows))
  }

  /** Every date of the mortality rows is a date of the series. */
  lemma {:induction false} MortalityRowsSub(rows: seq<Row<int>>, k: string)
    requires forall i :: 0 <= i < |rows| ==> |rows[i].vals| == 2
    requires k in Keys(MortalityRows(rows))
    ensures k in Keys(rows)
  {
    var t := rows[1..];
    assert rows == [rows[0]] + t;
    KeysConcat([rows[0]], t);
    var head := if Positive(rows[0].vals) then [Row(rows[0].key, MortalityOf(rows[0].vals))] else [];
    KeysConcat(head, MortalityRows(t));
    if k != rows[0].key {
      MortalityRowsSub(t, k);
    }
  }

  /** The filter keeps the dates in their order. */
  lemma {:induction false} MortalityRowsOrder(rows: seq<Row<int>>)
    requires forall i :: 0 <= i < |rows| ==> |rows[i].vals| == 2
    ensures Subsequence(Keys(MortalityRows(rows)), Keys(rows))
  {
    if rows != [] {
      var t := rows[1..];
      MortalityRowsOrder(t);
      var out := MortalityRows(rows);
      assert Keys(rows)[1..] == Keys(t);
      if Positive(rows[0].vals) {
        assert out == [Row(rows[0].key, MortalityOf(rows[0].vals))] + MortalityRows(t);
        assert Keys(out)[1..] == Keys(MortalityRows(t));
      } else {
        assert out == MortalityRows(t);
        SubsequenceSkip(Keys(out), Keys(rows));
      }
    }
  }

  /** Distinct dates stay distinct. */
  lemma {:induction false} MortalityRowsDistinct(rows: seq<Row<int>>)
    requires forall i :: 0 <= i < |rows| ==> |rows[i].vals| == 2
    requires Distinct(Keys(rows))
    ensures Distinct(Keys(MortalityRows(rows)))
  {
    if rows != [] {
      var t := rows[1..];
      assert Keys(rows) == [rows[0].key] + Keys(t);
      DistinctTail(Keys(rows));
      MortalityRowsDistinct(t);
      var out := MortalityRows(rows);
      var rest := Keys(MortalityRows(t));
      if Positive(rows[0].vals) {
        assert out == [Row(rows[0].key, MortalityOf(rows[0].vals))] + MortalityRows(t);
        assert Keys(out) == [rows[0].key] + rest;
        if rows[0].key in rest {
          MortalityRowsSub(t, rows[0].key);
        }
        DistinctCons(rows[0].key, rest);
      } else {
        assert out == MortalityRows(t);
      }
    }
  }

  /** On distinct dates, a date survives the filter iff its row has a positive confirmed count. */
  lemma {:induction false} MortalityRowsMember(rows: seq<Row<int>>, k: string)
    requires forall i :: 0 <= i < |rows| ==> |rows[i].vals| == 2
    requires Distinct(Keys(rows))
    ensures k in Keys(MortalityRows(rows)) <==> Positive(Find(rows, k, 2))
  {
    if rows == [] {
      assert Nones<int>(2)[0] == None;
    } else {
      var t := rows[1..];
      assert Keys(rows) == [rows[0].key] + Keys(t);
      DistinctTail(Keys(rows));
      var out := MortalityRows(rows);
      if Positive(rows[0].vals) {
        assert out == [Row(rows[0].key, MortalityOf(rows[0].vals))] + MortalityRows(t);
        assert Keys(out) == [rows[0].key] + Keys(MortalityRows(t));
      } else {
        assert out == MortalityRows(t);
      }
      if rows[0].key == k {
        if !Positive(rows[0].vals) && k in Keys(MortalityRows(t)) {
          MortalityRowsSub(t, k);
        }
      } else {
        MortalityRowsMember(t, k);
      }
    }
  }

  lemma FindAbsent<V>(rows: seq<Row<V>>, k: string, w: nat)
    requires forall i :: 0 <= i < |rows| ==> |rows[i].vals| == w
    requires k !in Keys(rows)
    ensures Find(rows, k, w) == Nones(w)
  {
    FindFirstMatch(rows, k, w);
  }

  /** On distinct dates, looking a date up in the mortality rows gives the mortality of its row. */
  lemma {:induction false} MortalityRowsFind(rows: seq<Row<int>>, k: string)
    requires forall i :: 0 <= i < |rows| ==> |rows[i].vals| == 2
    requires Distinct(Keys(rows))
    ensures Find(MortalityRows(rows), k, 1) == MortalityOf(Find(rows, k, 2))
  {
    if rows == [] {
      assert Nones<int>(2)[0] == None;
      assert Nones<real>(1) == [None];
    } else {
      var t := rows[1..];
      assert Keys(rows) == [rows[0].key] + Keys(t);
      DistinctTail(Keys(rows));
      var out := MortalityRows(rows);
      if Positive(rows[0].vals) {
        assert out == [Row(rows[0].key, MortalityOf(rows[0].vals))] + MortalityRows(t);
      } else {
        assert out == MortalityRows(t);
      }
      if rows[0].key == k {
        if !Positive(rows[0].vals) {
          if k in Keys(MortalityRows(t)) {
            MortalityRowsSub(t, k);
          }
          FindAbsent(MortalityRows(t), k, 1);
          assert Nones<real>(1) == [None];
        }
      } else {
        MortalityRowsFind(t, k);
      }
    }
  }

  /** The mortality frame of a series with distinct dates: same order, a date iff it has cases, rates by date. */
  lemma MortalityFrameAt(f: Frame<int>, k: string)
    requires f.Valid() && f.width == 2 && UniqueKeys(f)
    ensures k in Keys(MortalityFrame(f).rows) <==> Positive(Lookup(f, k))
    ensures Lookup(MortalityFrame(f), k) == [MortalityOf(Lookup(f, k))[0]]
  {
    MortalityRowsMember(f.rows, k);
    MortalityRowsFind(f.rows, k);
  }

  /**
   * `get_mortality_data`: the country's confirmed and dead series merged and
   * backfilled, the rows with positive confirmed cases kept, and their
   * mortality under the header Date and the country name. The ghost
   * `series` is the merged frame the filter starts from.
   */
  method GetMortalityData(country: string, confirmed: Table<int>, dead: Table<int>)
    returns (r: Result<Labelled<real>>, ghost series: Frame<int>)
    requires confirmed.Valid() && dead.Valid()
    ensures r.Ok? <==> country in confirmed.names && country in dead.names
    ensures r.Err? ==> r.error == MissingLabel(country)
    ensures r.Ok? ==> r.value.header == ["Date", country]
    ensures r.Ok? ==> && IsCountrySeries([confirmed, dead], country, series)
                      && r.value.frame == MortalityFrame(series)
  {
    var ts := GetCountryTs(country, [confirmed, dead], ["Confirmed", "Deaths"]);
    series := Frame(2, []);
    if ts.Err? {
      return Err(ts.error), series;
    }
    series := ts.value.frame;
    r := Ok(Labelled(["Date", country], MortalityFrame(ts.value.frame)));
  }

  /** Merged (Confirmed, Deaths) frames with distinct dates. */
  predicate AllSeries(series: seq<Frame<int>>)
  {
    forall j :: 0 <= j < |series| ==> series[j].Valid() && series[j].width == 2 && UniqueKeys(series[j])
  }

  /** The mortality frame of each merged series. */
  function MortalityFrames(series: seq<Frame<int>>): (fs: seq<Frame<real>>)
    requires AllSeries(series)
    ensures |fs| == |series| && AllValid(fs) && AllUnique(fs) && TotalWidth(fs) == |series|
    ensures forall j :: 0 <= j < |series| ==> fs[j] == MortalityFrame(series[j])
  {
    var fs := seq(|series|, j requires 0 <= j < |series| => MortalityFrame(series[j]));
    OnesWidth(fs);
    fs
  }

  /** `series[j]` is the merged (Confirmed, Deaths) frame of country `names[j]`, for every j. */
  ghost predicate SeriesOf(confirmed: Table<int>, dead: Table<int>, names: seq<string>, series: seq<Frame<int>>)
    requires confirmed.Valid() && dead.Valid()
    decreases |names|
  {
    && |names| == |series|
    && (names != [] ==>
          var n := |names| - 1;
          && SeriesOf(confirmed, dead, names[..n], series[..n])
          && names[n] in confirmed.names && names[n] in dead.names
          && IsCountrySeries([confirmed, dead], names[n], series[n]))
  }

  /** Each frame of a SeriesOf list is its country's merged series. */
  lemma {:induction false} SeriesOfAt(confirmed: Table<int>, dead: Table<int>, names: seq<string>, series: seq<Frame<int>>, j: nat)
    requires confirmed.Valid() && dead.Valid() && SeriesOf(confirmed, dead, names, series) && j < |names|
    ensures names[j] in confirmed.names && names[j] in dead.names
    ensures IsCountrySeries([confirmed, dead], names[j], series[j])
    decreases |names|
  {
    var n := |names| - 1;
    if j < n {
      SeriesOfAt(confirmed, dead, names[..n], series[..n], j);
    }
  }

  /** Taking the next name and its merged series keeps a SeriesOf list, and the mortality frames follow. */
  lemma SeriesOfStep(confirmed: Table<int>, dead: Table<int>, names: seq<string>, i: nat,
                     series: seq<Frame<int>>, s: Frame<int>, mort: seq<Frame<real>>, f: Frame<real>)
    requires confirmed.Valid() && dead.Valid() && i < |names|
    requires SeriesOf(confirmed, dead, names[..i], series) && AllSeries(series) && mort == MortalityFrames(series)
    requires names[i] in confirmed.names && names[i] in dead.names && IsCountrySeries([confirmed, dead], names[i], s)
    requires f == MortalityFrame(s)
    ensures SeriesOf(confirmed, dead, names[..i + 1], series + [s]) && AllSeries(series + [s])
    ensures mort + [f] == MortalityFrames(series + [s])
  {
    SeriesOfSnoc(confirmed, dead, names[..i], series, names[i], s);
    assert names[..i + 1] == names[..i] + [names[i]];
    FramesSnoc(series, s);
  }

  lemma SeriesOfSnoc(confirmed: Table<int>, dead: Table<int>, names: seq<string>, series: seq<Frame<int>>, c: string, s: Frame<int>)
    requires confirmed.Valid() && dead.Valid() && SeriesOf(confirmed, dead, names, series)
    requires c in confirmed.names && c in dead.names && IsCountrySeries([confirmed, dead], c, s)
    ensures SeriesOf(confirmed, dead, names + [c], series + [s])
  {
    var names', series' := names + [c], series + [s];
    assert names'[..|names|] == names && names'[|names|] == c;
    assert series'[..|names|] == series && series'[|names|] == s;
  }

  /** The mortality frames of a longer list of series end in the new series' frame. */
  lemma FramesSnoc(series: seq<Frame<int>>, s: Frame<int>)
    requires AllSeries(series) && s.Valid() && s.width == 2 && UniqueKeys(s)
    ensures AllSeries(series + [s])
    ensures MortalityFrames(series + [s]) == MortalityFrames(series) + [MortalityFrame(s)]
  {
    assert forall j :: 0 <= j < |series| ==> (series + [s])[j] == series[j];
  }

  /**
   * The loop of `make_mortality`: the mortality frame of each name in turn,
   * stopping at the first name the deaths table lacks.
   */
  method CollectMortality(confirmed: Table<int>, dead: Table<int>, names: seq<string>)
    returns (r: Result<seq<Frame<real>>>, ghost series: seq<Frame<int>>)
    requires confirmed.Valid() && dead.Valid()
    requires forall j :: 0 <= j < |names| ==> names[j] in confirmed.names
    ensures r.Ok? <==> forall j :: 0 <= j < |names| ==> names[j] in dead.names
    ensures r.Err? ==> r.error.MissingLabel? && r.error.name in names && r.error.name !in dead.names
    ensures r.Ok? ==> SeriesOf(confirmed, dead, names, series) && AllSeries(series) && r.value == MortalityFrames(series)
  {
    var mort: seq<Frame<real>> := [];
    series := [];
    for i := 0 to |names|
      invariant SeriesOf(confirmed, dead, names[..i], series) && AllSeries(series)
      invariant mort == MortalityFrames(series)
    {
      var c := names[i];
      var tmp, s := GetMortalityData(c, confirmed, dead);
      if tmp.Err? {
        return Err(tmp.error), series;
      }
      SeriesOfStep(confirmed, dead, names, i, series, s, mort, tmp.value.frame);
      mort := mort + [tmp.value.frame];
      series := series + [s];
    }
    assert names[..|names|] == names;
    forall j | 0 <= j < |names| ensures names[j] in dead.names {
      SeriesOfAt(confirmed, dead, names, series, j);
    }
    r := Ok(mort);
  }

  /**
   * `make_mortality`: the mortality frame of every country of the confirmed
   * table, in sorted order, inner-merged on Date. The ghost `series` holds
   * the merged frame of each country, in the same order.
   */
  method MakeMortality(confirmed: Table<int>, dead: Table<int>)
    returns (r: Result<Labelled<real>>, ghost series: seq<Frame<int>>)
    requires confirmed.Valid() && dead.Valid()
    ensures r.Ok? <==> |confirmed.names| > 0 && forall c :: c in confirmed.names ==> c in dead.names
    ensures r.Err? ==>
      || (r.error == EmptyReduce && |confirmed.names| == 0)
      || (r.error.MissingLabel? && r.error.name in confirmed.names && r.error.name !in dead.names)
    ensures r.Ok? ==> var names := SortedSet(confirmed.names);
      && r.value.header == ["Date"] + names
      && SeriesOf(confirmed, dead, names, series) && AllSeries(series)
      && r.value.frame == InnerJoinAll(MortalityFrames(series))
  {
    var allCountries := SortedSet(confirmed.names);
    assert forall j :: 0 <= j < |allCountries| ==> allCountries[j] in confirmed.names;
    var mort;
    mort, series := CollectMortality(confirmed, dead, allCountries);
    if mort.Err? {
      return Err(mort.error), series;
    }
    EveryNameIn(confirmed.names, allCountries, dead.names);
    if mort.value == [] {
      return Err(EmptyReduce), series;
    }
    r := Ok(Labelled(["Date"] + allCountries, InnerJoinAll(mort.value)));
  }

  /** When every entry of a list with the same members as `names` is in `other`, so is every name. */
  lemma EveryNameIn(names: seq<string>, members: seq<string>, other: seq<string>)
    requires forall z :: z in members <==> z in names
    requires forall j :: 0 <= j < |members| ==> members[j] in other
    ensures forall c :: c in names ==> c in other
  {
    forall c | c in names ensures c in other {
      var j := IndexOf(members, c);
    }
  }

  /** The merged mortality table has distinct dates, one column per country, in the first country's date order. */
  lemma MortalityTableShape(series: seq<Frame<int>>)
    requires |series| > 0 && AllSeries(series)
    ensures var m := InnerJoinAll(MortalityFrames(series));
      && UniqueKeys(m) && m.width == |series|
      && Subsequence(Keys(m.rows), Keys(series[0].rows))
  {
    var fs := MortalityFrames(series);
    InnerJoinAllUnique(fs);
    MortalityRowsOrder(series[0].rows);
    SubsequenceTrans(Keys(InnerJoinAll(fs).rows), Keys(fs[0].rows), Keys(series[0].rows));
  }

  /** A date is in the merged mortality table iff every country has a positive backfilled confirmed count on it. */
  lemma MortalityTableDates(series: seq<Frame<int>>, d: Date)
    requires |series| > 0 && AllSeries(series)
    ensures d in Keys(InnerJoinAll(MortalityFrames(series)).rows) <==>
            forall j :: 0 <= j < |series| ==> Positive(Lookup(series[j], d))
  {
    var fs := MortalityFrames(series);
    forall j | 0 <= j < |series| ensures d in Keys(fs[j].rows) <==> Positive(Lookup(series[j], d)) {
      MortalityFrameAt(series[j], d);
    }
  }

  /** On a date of the merged table, column j holds the mortality of the j-th country. */
  lemma MortalityTableCells(series: seq<Frame<int>>, d: Date)
    requires |series| > 0 && AllSeries(series)
    requires d in Keys(InnerJoinAll(MortalityFrames(series)).rows)
    ensures var m := InnerJoinAll(MortalityFrames(series));
      forall j :: 0 <= j < |series| ==> Lookup(m, d)[j] == MortalityOf(Lookup(series[j], d))[0]
  {
    var fs := MortalityFrames(series);
    InnerJoinAllUnique(fs);
    var cells := seq(|series|, j requires 0 <= j < |series| => MortalityOf(Lookup(series[j], d))[0]);
    forall j | 0 <= j < |series| ensures Lookup(fs[j], d) == [cells[j]] {
      MortalityFrameAt(series[j], d);
    }
    LookupAllSingles(fs, d, cells);
  }

  lemma {:induction false} OnesWidth(fs: seq<Frame<real>>)
    requires forall j :: 0 <= j < |fs| ==> fs[j].width == 1
    ensures TotalWidth(fs) == |fs|
  {
    if fs != [] {
      OnesWidth(fs[..|fs| - 1]);
    }
  }
}
