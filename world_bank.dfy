/**
 * The World Bank table: the latest observation of each of seven indicators
 * per country, merged on Country, matched to the covid countries through
 * the three-letter country code, filtered, imputed and reduced to a fixed
 * set of sorted columns.
 */
module WorldBank {
  import opened Wrappers
  import opened Order
  import opened Frames
  import opened Continents
  import opened CountryStats

  // ---------------------------------------------------------------- indicator files

  /** The indicator files, each with the label its value column gets. */
  const Files: seq<(string, string)> :=
    [("SP.DYN.LE00.IN", "Life expectancy"),
     ("NY.GDP.PCAP.PP.CD", "GDP per capita"),
     ("SP.URB.TOTL.IN.ZS", "Urban population %"),
     ("SP.RUR.TOTL.ZS", "Rural population %"),
     ("EN.POP.SLUM.UR.ZS", "Slum population %"),
     ("SP.POP.TOTL", "Population"),
     ("SH.XPD.CHEX.GD.ZS", "GDP Healthcare %")]

  /** Positions of the indicators in a merged row, in the order of `Files`. */
  const LifeExpectancy: nat := 0
  const GdpPerCapita: nat := 1
  const RuralPopulation: nat := 3
  const Population: nat := 5
  const GdpHealthcare: nat := 6

  /** One row of an indicator file: country, year and value, any of them possibly missing. */
  datatype Obs = Obs(country: Option<string>, date: Option<int>, value: Option<real>)

  /** An indicator file with its value column relabelled. */
  datatype Indicator = Indicator(name: string, rows: seq<Obs>)

  /** The labels of the indicator columns. */
  function Labels(): (ls: seq<string>)
    ensures |ls| == |Files| && forall i :: 0 <= i < |Files| ==> ls[i] == Files[i].1
  {
    seq(|Files|, i requires 0 <= i < |Files| => Files[i].1)
  }

  /**
   * The seven labels are distinct and none is Country, so the outer merges
   * on Country never clash on a column name and no suffix is added.
   */
  lemma LabelsDistinct()
    ensures Distinct(Labels()) && "Country" !in Labels()
  {
    var ls := Labels();
    assert ls == ["Life expectancy", "GDP per capita", "Urban population %", "Rural population %",
                  "Slum population %", "Population", "GDP Healthcare %"];
  }

  /**
   * `read_data`: the files in their fixed order, the third column of each
   * renamed to the file's label (reading the CSV is left to the caller).
   */
  method ReadData(raw: seq<seq<Obs>>) returns (r: seq<Indicator>)
    requires |raw| == |Files|
    ensures |r| == |Files|
    ensures forall i :: 0 <= i < |r| ==> r[i].name == Files[i].1 && r[i].rows == raw[i]
  {
    r := [];
    for i := 0 to |Files|
      invariant |r| == i
      invariant forall k :: 0 <= k < i ==> r[k] == Indicator(Files[k].1, raw[k])
    {
      r := r + [Indicator(Files[i].1, raw[i])];
    }
  }

  // ---------------------------------------------------------------- latest observation

  /** A row with all three fields present. */
  datatype Full = Full(country: string, date: int, value: real)

  /** A complete row as the observation it came from. */
  function AsObs(x: Full): Obs
  {
    Obs(Some(x.country), Some(x.date), Some(x.value))
  }

  /** An observation without a gap. */
  predicate Complete(o: Obs)
  {
    o.country.Some? && o.date.Some? && o.value.Some?
  }

  /**
   * `dropna()`: the complete rows, in order and each as often as it occurs;
   * read back as observations they are the gap-free observations.
   */
  function DropMissing(obs: seq<Obs>): (r: seq<Full>)
    ensures Map(r, AsObs) == Where(obs, Complete)
    ensures forall x :: x in r <==> AsObs(x) in obs
  {
    if obs == [] then []
    else
      var o := obs[0];
      var rest := DropMissing(obs[1..]);
      assert obs == [o] + obs[1..];
      if Complete(o) then
        var x := Full(o.country.value, o.date.value, o.value.value);
        assert Where(obs, Complete) == [o] + Where(obs[1..], Complete);
        assert Map([x], AsObs) == [o];
        MapConcat([x], rest, AsObs);
        [x] + rest
      else
        assert Where(obs, Complete) == Where(obs[1..], Complete);
        assert forall y :: Complete(AsObs(y));
        rest
  }

  /** The Country column of the complete rows. */
  function FullCountries(full: seq<Full>): (cs: seq<string>)
    ensures forall c :: c in cs <==> exists x :: x in full && x.country == c
  {
    var cs := seq(|full|, i requires 0 <= i < |full| => full[i].country);
    assert forall i :: 0 <= i < |full| ==> cs[i] == full[i].country;
    cs
  }

  /** The latest year of country c. */
  function MaxDate(full: seq<Full>, c: string): (d: int)
    requires c in FullCountries(full)
    ensures exists x :: x in full && x.country == c && x.date == d
    ensures forall x :: x in full && x.country == c ==> x.date <= d
  {
    var x := full[0];
    assert full == [x] + full[1..];
    if c !in FullCountries(full[1..]) then x.date
    else
      var d := MaxDate(full[1..], c);
      if x.country == c && x.date > d then x.date else d
  }

  /** x is an observation of its country in the latest year: no row of the same country is later. */
  predicate IsLatest(full: seq<Full>, x: Full)
  {
    forall y :: y in full && y.country == x.country ==> y.date <= x.date
  }

  /** `df.groupby(['Country'])['Date'].max()`: each country, sorted, with its latest year. */
  function LatestDates(full: seq<Full>): (ls: seq<(string, int)>)
    ensures forall i :: 0 <= i < |ls| ==> ls[i].0 in FullCountries(full) && ls[i].1 == MaxDate(full, ls[i].0)
  {
    var ks := SortedSet(FullCountries(full));
    seq(|ks|, i requires 0 <= i < |ks| => (ks[i], MaxDate(full, ks[i])))
  }

  /** The rows of one country and year, as (Country, value) rows, in file order. */
  function RowsAt(l: (string, int), full: seq<Full>): (r: seq<Row<real>>)
    ensures forall i :: 0 <= i < |r| ==> r[i].key == l.0 && |r[i].vals| == 1
    ensures forall row :: row in r <==> exists x :: x in full && x.country == l.0 && x.date == l.1 && row == Row(x.country, [Some(x.value)])
  {
    if full == [] then []
    else
      var x := full[0];
      assert full == [x] + full[1..];
      (if x.country == l.0 && x.date == l.1 then [Row(x.country, [Some(x.value)])] else []) + RowsAt(l, full[1..])
  }

  /** `pd.merge(latest, df, on=['Country', 'Date'])`: for each (country, year) in turn, its rows. */
  function MergeLatest(ls: seq<(string, int)>, full: seq<Full>): (r: seq<Row<real>>)
    ensures forall i :: 0 <= i < |r| ==> |r[i].vals| == 1
  {
    if ls == [] then [] else RowsAt(ls[0], full) + MergeLatest(ls[1..], full)
  }

  /**
   * `get_world_bank_data`: the complete rows of each country in its latest
   * year, countries in sorted order, Date dropped.
   */
  function GetWorldBankData(obs: seq<Obs>): (f: Frame<real>)
    ensures f.Valid() && f.width == 1
  {
    var full := DropMissing(obs);
    Frame(1, MergeLatest(LatestDates(full), full))
  }

  lemma {:induction false} MergeLatestMembers(ls: seq<(string, int)>, full: seq<Full>, row: Row<real>)
    ensures row in MergeLatest(ls, full) <==>
              exists x :: x in full && (x.country, x.date) in ls && row == Row(x.country, [Some(x.value)])
  {
    if ls != [] {
      MergeLatestMembers(ls[1..], full, row);
      assert ls == [ls[0]] + ls[1..];
    }
  }

  /** A complete row's (country, year) pair is in the groupby result exactly when the year is its country's latest. */
  lemma LatestDatesMembers(full: seq<Full>, x: Full)
    requires x in full
    ensures (x.country, x.date) in LatestDates(full) <==> IsLatest(full, x)
  {
    var ls := LatestDates(full);
    var ks := SortedSet(FullCountries(full));
    assert x.country in FullCountries(full);
    var d := MaxDate(full, x.country);
    if IsLatest(full, x) {
      var y :| y in full && y.country == x.country && y.date == d;
      assert x.date == d;
      var i :| 0 <= i < |ks| && ks[i] == x.country;
      assert ls[i] == (x.country, x.date);
    }
  }

  /**
   * A row of the result is a complete observation of its country in that
   * country's latest year, and every such observation is a row: ties on the
   * latest year are all kept.
   */
  lemma LatestRows(obs: seq<Obs>, row: Row<real>)
    ensures var full := DropMissing(obs);
      row in GetWorldBankData(obs).rows <==>
        exists x :: x in full && IsLatest(full, x) && row == Row(x.country, [Some(x.value)])
  {
    var full := DropMissing(obs);
    MergeLatestMembers(LatestDates(full), full, row);
    forall x | x in full {
      LatestDatesMembers(full, x);
    }
  }

  /** The keys of one (country, year) group are that country. */
  lemma RowsAtKeys(l: (string, int), full: seq<Full>)
    ensures forall z :: z in Keys(RowsAt(l, full)) ==> z == l.0
  {
  }

  lemma {:induction false} MergeLatestOrder(ls: seq<(string, int)>, full: seq<Full>, ks: seq<string>)
    requires |ks| == |ls| && StrictlySorted(ks) && forall i :: 0 <= i < |ls| ==> ls[i].0 == ks[i]
    ensures Sorted(Keys(MergeLatest(ls, full)))
  {
    if ls != [] {
      var head := RowsAt(ls[0], full);
      var rest := MergeLatest(ls[1..], full);
      MergeLatestOrder(ls[1..], full, ks[1..]);
      KeysConcat(head, rest);
      RowsAtKeys(ls[0], full);
      StrictlySortedIsSorted(ks);
      SortedFirst(ks);
      forall z | z in Keys(rest) ensures Le(ks[0], z) {
        var k :| 0 <= k < |rest| && rest[k].key == z;
        MergeLatestMembers(ls[1..], full, rest[k]);
        var x :| x in full && (x.country, x.date) in ls[1..] && rest[k] == Row(x.country, [Some(x.value)]);
        var j :| 0 <= j < |ls[1..]| && ls[1..][j] == (x.country, x.date);
        assert z == ks[1..][j];
      }
      RunThenSorted(Keys(head), Keys(rest), ks[0]);
    }
  }

  /** The result is ordered by country, as the groupby on the left of the merge leaves it. */
  lemma LatestOrder(obs: seq<Obs>)
    ensures Sorted(Keys(GetWorldBankData(obs).rows))
  {
    var full := DropMissing(obs);
    MergeLatestOrder(LatestDates(full), full, SortedSet(FullCountries(full)));
  }

  /** Its countries are exactly those with a complete row. */
  lemma LatestKeys(obs: seq<Obs>, c: string)
    ensures c in Keys(GetWorldBankData(obs).rows) <==> exists x :: x in DropMissing(obs) && x.country == c
  {
    var full := DropMissing(obs);
    var ls := LatestDates(full);
    var m := MergeLatest(ls, full);
    assert GetWorldBankData(obs).rows == m;
    if c in Keys(m) {
      var i :| 0 <= i < |m| && m[i].key == c;
      MergeLatestMembers(ls, full, m[i]);
    }
    if c in FullCountries(full) {
      var y :| y in full && y.country == c && y.date == MaxDate(full, c);
      LatestDatesMembers(full, y);
      MergeLatestMembers(ls, full, Row(c, [Some(y.value)]));
      var i :| 0 <= i < |m| && m[i] == Row(c, [Some(y.value)]);
      assert Keys(m)[i] == c;
    }
  }

  /** A row of `world_bank_codes.csv`: a World Bank country name and its three-letter code. */
  datatype WbCode = WbCode(name: string, code: Option<string>)

  /** A merged indicator row with its code: Country, the seven indicators, and Country Code. */
  datatype Coded = Coded(country: string, vals: seq<Option<real>>, code: Option<string>)

  /** A continents row merged with the stats of its country. */
  datatype Place = Place(continent: string, code: Option<string>, country: string, stats: StatsRow)

  /** A covid country side by side with the World Bank row of the same code. */
  datatype Joined = Joined(place: Place, wb: Coded)

  /** `pd.merge(world_bank, wb_codes, left_on=['Country'], right_on=['Country Name'])`. */
  function MergeCodes(rows: seq<Row<real>>, codes: seq<WbCode>): seq<Coded>
  {
    InnerMerge(rows, codes, (r: Row<real>, w: WbCode) => r.key == w.name,
               (r: Row<real>, w: WbCode) => Coded(r.key, r.vals, w.code))
  }

  /** `pd.merge(covid_codes, stats, on='Country')`. */
  function MergeStats(cont: seq<ContinentRow>, stats: seq<StatsRow>): seq<Place>
  {
    InnerMerge(cont, stats, (y: ContinentRow, s: StatsRow) => y.country == s.country,
               (y: ContinentRow, s: StatsRow) => Place(y.continent, y.code, y.country, s))
  }

  /**
   * `pd.merge(countries, world_bank, on='Country Code')`. pandas matches a
   * missing key with a missing key, so codes compare as optional values.
   */
  function MergeOnCode(places: seq<Place>, coded: seq<Coded>): seq<Joined>
  {
    InnerMerge(places, coded, (p: Place, w: Coded) => p.code == w.code, (p: Place, w: Coded) => Joined(p, w))
  }

  // ---------------------------------------------------------------- filters

  predicate MoreThan5000(j: Joined)
  {
    j.place.stats.confirmed.Some? && j.place.stats.confirmed.value > 5000
  }

  /** `world_bank[world_bank['Confirmed'] > 5000]`: a missing count compares false. */
  function AboveCutoff(js: seq<Joined>): seq<Joined>
  {
    Where(js, MoreThan5000)
  }

  /** `world_bank[world_bank['Country'] != 'Yemen']`. */
  function NotYemen(js: seq<Joined>): seq<Joined>
  {
    Where(js, (j: Joined) => j.place.country != "Yemen")
  }

  // ---------------------------------------------------------------- merged tables

  /** The latest-observation frame of every indicator file, in file order. */
  function LatestFrames(ind: seq<seq<Obs>>): (fs: seq<Frame<real>>)
    ensures |fs| == |ind| && AllValid(fs)
    ensures forall i :: 0 <= i < |ind| ==> fs[i] == GetWorldBankData(ind[i])
  {
    seq(|ind|, i requires 0 <= i < |ind| => GetWorldBankData(ind[i]))
  }

  /** `reduce(outer_join, dataframes)`: the indicators side by side, one column each. */
  function Merged(ind: seq<seq<Obs>>): (f: Frame<real>)
    requires |ind| > 0
    ensures f.Valid() && f.width == |ind|
  {
    var fs := LatestFrames(ind);
    UnitWidths(fs);
    OuterJoinAll(fs)
  }

  /** The merged indicator table has a row for every country with a complete observation in some file. */
  lemma MergedKeys(ind: seq<seq<Obs>>, c: string)
    requires |ind| > 0
    ensures c in Keys(Merged(ind).rows) <==> exists i, x :: 0 <= i < |ind| && x in DropMissing(ind[i]) && x.country == c
  {
    var fs := LatestFrames(ind);
    AllKeysIn(fs, c);
    forall i | 0 <= i < |ind| {
      LatestKeys(ind[i], c);
    }
  }

  /** The rows that survive the merges and both filters, before imputation. */
  function Kept(ind: seq<seq<Obs>>, codes: seq<WbCode>, cont: seq<ContinentRow>, stats: seq<StatsRow>): seq<Joined>
    requires |ind| > 0
  {
    NotYemen(AboveCutoff(MergeOnCode(MergeStats(cont, stats), MergeCodes(Merged(ind).rows, codes))))
  }

  lemma MergeCodesMembers(rows: seq<Row<real>>, codes: seq<WbCode>, x: Coded)
    ensures x in MergeCodes(rows, codes) <==> Row(x.country, x.vals) in rows && WbCode(x.country, x.code) in codes
  {
    var on := (r: Row<real>, w: WbCode) => r.key == w.name;
    var make := (r: Row<real>, w: WbCode) => Coded(r.key, r.vals, w.code);
    InnerMergeMembers(rows, codes, on, make, x);
    if x in MergeCodes(rows, codes) {
      var r, w :| r in rows && w in codes && on(r, w) && x == make(r, w);
      assert r == Row(x.country, x.vals) && w == WbCode(x.country, x.code);
    }
    if Row(x.country, x.vals) in rows && WbCode(x.country, x.code) in codes {
      assert on(Row(x.country, x.vals), WbCode(x.country, x.code)) && x == make(Row(x.country, x.vals), WbCode(x.country, x.code));
    }
  }

  lemma MergeStatsMembers(cont: seq<ContinentRow>, stats: seq<StatsRow>, p: Place)
    ensures p in MergeStats(cont, stats) <==>
              ContinentRow(p.continent, p.code, p.country) in cont && p.stats in stats && p.stats.country == p.country
  {
    var on := (y: ContinentRow, s: StatsRow) => y.country == s.country;
    var make := (y: ContinentRow, s: StatsRow) => Place(y.continent, y.code, y.country, s);
    InnerMergeMembers(cont, stats, on, make, p);
    var y := ContinentRow(p.continent, p.code, p.country);
    if y in cont && p.stats in stats && p.stats.country == p.country {
      assert on(y, p.stats) && p == make(y, p.stats);
    }
  }

  lemma MergeOnCodeMembers(places: seq<Place>, coded: seq<Coded>, j: Joined)
    ensures j in MergeOnCode(places, coded) <==> j.place in places && j.wb in coded && j.place.code == j.wb.code
  {
    var on := (p: Place, w: Coded) => p.code == w.code;
    var make := (p: Place, w: Coded) => Joined(p, w);
    InnerMergeMembers(places, coded, on, make, j);
    if j.place in places && j.wb in coded && j.place.code == j.wb.code {
      assert on(j.place, j.wb) && j == make(j.place, j.wb);
    }
  }

  /**
   * A surviving row pairs a continents row with the stats row of the same
   * country, and the merged indicator row whose name has that country's
   * code; it has more than 5000 confirmed cases and is not Yemen. Every
   * such combination survives.
   */
  lemma KeptRows(ind: seq<seq<Obs>>, codes: seq<WbCode>, cont: seq<ContinentRow>, stats: seq<StatsRow>, j: Joined)
    requires |ind| > 0
    ensures j in Kept(ind, codes, cont, stats) <==>
              && ContinentRow(j.place.continent, j.place.code, j.place.country) in cont
              && j.place.stats in stats && j.place.stats.country == j.place.country
              && Row(j.wb.country, j.wb.vals) in Merged(ind).rows
              && WbCode(j.wb.country, j.wb.code) in codes
              && j.wb.code == j.place.code
              && j.place.stats.confirmed.Some? && j.place.stats.confirmed.value > 5000
              && j.place.country != "Yemen"
  {
    var rows := Merged(ind).rows;
    var joined := MergeOnCode(MergeStats(cont, stats), MergeCodes(rows, codes));
    MergeOnCodeMembers(MergeStats(cont, stats), MergeCodes(rows, codes), j);
    MergeStatsMembers(cont, stats, j.place);
    MergeCodesMembers(rows, codes, j.wb);
    assert j in Kept(ind, codes, cont, stats) <==> j in joined && MoreThan5000(j) && j.place.country != "Yemen";
  }

  // ---------------------------------------------------------------- imputation

  /** The present values, in order. */
  function Present(xs: seq<Option<real>>): (v: seq<real>)
    ensures forall x :: x in v <==> Some(x) in xs
  {
    if xs == [] then []
    else
      assert xs == [xs[0]] + xs[1..];
      (if xs[0].Some? then [xs[0].value] else []) + Present(xs[1..])
  }

  predicate SortedReals(s: seq<real>)
  {
    forall i, j :: 0 <= i < j < |s| ==> s[i] <= s[j]
  }

  function InsertReal(x: real, s: seq<real>): (r: seq<real>)
    requires SortedReals(s)
    ensures SortedReals(r)
    ensures multiset(r) == multiset(s) + multiset{x}
  {
    if s == [] then [x]
    else if x <= s[0] then [x] + s
    else
      var t := InsertReal(x, s[1..]);
      assert s == [s[0]] + s[1..];
      forall z | z in t ensures s[0] <= z {
        assert z in multiset(t);
        if z != x {
          var k :| 0 <= k < |s[1..]| && s[1..][k] == z;
          assert s[k + 1] == z;
        }
      }
      ConsSortedReals(s[0], t);
      [s[0]] + t
  }

  lemma ConsSortedReals(y: real, t: seq<real>)
    requires SortedReals(t) && forall z :: z in t ==> y <= z
    ensures SortedReals([y] + t)
  {
    var r := [y] + t;
    forall i, j | 0 <= i < j < |r| ensures r[i] <= r[j] {
      assert r[j] == t[j - 1] && t[j - 1] in t;
      if i > 0 {
        assert r[i] == t[i - 1];
      }
    }
  }

  function SortReals(v: seq<real>): (s: seq<real>)
    ensures SortedReals(s) && multiset(s) == multiset(v) && |s| == |v|
  {
    if v == [] then []
    else
      assert v == [v[0]] + v[1..];
      var s := InsertReal(v[0], SortReals(v[1..]));
      assert |s| == |multiset(s)|;
      s
  }

  /** The middle element of a sorted list, or the mean of the two middle ones. */
  function Middle(s: seq<real>): real
    requires |s| > 0
  {
    var n := |s|;
    if n % 2 == 1 then s[n / 2] else (s[n / 2 - 1] + s[n / 2]) / 2.0
  }

  /** pandas `median()`: the middle of the sorted present values; missing when no value is present. */
  function Median(xs: seq<Option<real>>): (m: Option<real>)
    ensures m.Some? <==> exists i :: 0 <= i < |xs| && xs[i].Some?
  {
    var v := Present(xs);
    var s := SortReals(v);
    if |s| > 0 then
      assert v[0] in v;
      Some(Middle(s))
    else
      assert forall i :: 0 <= i < |xs| && xs[i].Some? ==> xs[i].value in v;
      None
  }

  /** Every sorted present value is the value of some cell. */
  lemma SortedPresentCell(xs: seq<Option<real>>, k: nat)
    requires k < |SortReals(Present(xs))|
    ensures exists i :: 0 <= i < |xs| && xs[i] == Some(SortReals(Present(xs))[k])
  {
    var s := SortReals(Present(xs));
    assert s[k] in multiset(s);
    assert s[k] in Present(xs);
  }

  /** The middle of a sorted list lies between its two middle elements. */
  lemma MiddleBetween(s: seq<real>)
    requires SortedReals(s) && |s| > 0
    ensures s[(|s| - 1) / 2] <= Middle(s) <= s[|s| / 2]
  {
    var n := |s|;
    if n % 2 == 0 {
      assert s[n / 2 - 1] <= s[n / 2];
    }
  }

  /** The median lies between the smallest and the largest present value. */
  lemma MedianWithin(xs: seq<Option<real>>)
    ensures Median(xs).Some? ==>
              && (exists i :: 0 <= i < |xs| && xs[i].Some? && xs[i].value <= Median(xs).value)
              && (exists i :: 0 <= i < |xs| && xs[i].Some? && Median(xs).value <= xs[i].value)
  {
    var s := SortReals(Present(xs));
    var n := |s|;
    if n > 0 {
      MiddleBetween(s);
      SortedPresentCell(xs, (n - 1) / 2);
      SortedPresentCell(xs, n / 2);
    }
  }

  /** The cell in column k of a row; missing past the row's end. */
  function Cell(v: seq<Option<real>>, k: nat): Option<real>
  {
    if k < |v| then v[k] else None
  }

  /** Column k of the World Bank part, top to bottom. */
  function ColumnOf(js: seq<Joined>, k: nat): (c: seq<Option<real>>)
    ensures |c| == |js| && forall i :: 0 <= i < |js| ==> c[i] == Cell(js[i].wb.vals, k)
  {
    seq(|js|, i requires 0 <= i < |js| => Cell(js[i].wb.vals, k))
  }

  /** `fillna(m)` on one cell: a present cell stays, a missing one takes m. */
  function Filled(c: Option<real>, m: Option<real>): Option<real>
  {
    if c.Some? then c else m
  }

  /** `world_bank[col] = world_bank[col].fillna(world_bank[col].median())`. */
  function Impute(js: seq<Joined>, k: nat): seq<Joined>
  {
    var m := Median(ColumnOf(js, k));
    seq(|js|, i requires 0 <= i < |js| =>
      var v := js[i].wb.vals;
      js[i].(wb := js[i].wb.(vals := if k < |v| then v[k := Filled(v[k], m)] else v)))
  }

  /**
   * Imputing column k fills each of its missing cells with the column's
   * median, keeps its present cells, and leaves every other column and
   * field as it was.
   */
  lemma ImputeCells(js: seq<Joined>, k: nat)
    ensures var r := Impute(js, k);
      && |r| == |js|
      && (forall i :: 0 <= i < |js| ==> r[i].place == js[i].place && |r[i].wb.vals| == |js[i].wb.vals|)
      && (forall i, c :: 0 <= i < |js| && c != k ==> Cell(r[i].wb.vals, c) == Cell(js[i].wb.vals, c))
      && (forall i :: 0 <= i < |js| && k < |js[i].wb.vals| ==>
            Cell(r[i].wb.vals, k) == Filled(Cell(js[i].wb.vals, k), Median(ColumnOf(js, k))))
  {
  }

  /** Once a column has a present value, imputing it leaves no cell missing. */
  lemma ImputeComplete(js: seq<Joined>, k: nat)
    requires forall i :: 0 <= i < |js| ==> k < |js[i].wb.vals|
    requires exists i :: 0 <= i < |js| && Cell(js[i].wb.vals, k).Some?
    ensures forall i :: 0 <= i < |Impute(js, k)| ==> Cell(Impute(js, k)[i].wb.vals, k).Some?
  {
    var c := ColumnOf(js, k);
    var i :| 0 <= i < |js| && Cell(js[i].wb.vals, k).Some?;
    assert c[i].Some?;
    ImputeCells(js, k);
  }

  // ---------------------------------------------------------------- output

  /**
   * `count / population / 10 ** 6`, as written: divided by a million once
   * more rather than scaled to a million people. Missing when either value
   * is missing or the population is zero.
   */
  function PerMln(x: Option<int>, pop: Option<real>): (r: Option<real>)
    ensures r.Some? <==> x.Some? && pop.Some? && pop.value != 0.0
    ensures r.Some? ==> r.value * pop.value * 1000000.0 == x.value as real
  {
    if x.Some? && pop.Some? && pop.value != 0.0 then
      var q := x.value as real / pop.value;
      assert q * pop.value == x.value as real;
      Some(q / 1000000.0)
    else None
  }

  /**
   * The figure the column names promise: count per million people, that is
   * `count / population * 10 ** 6`. Missing in the same cases as `PerMln`.
   */
  function PerMillion(x: Option<int>, pop: Option<real>): (r: Option<real>)
    ensures r.Some? <==> x.Some? && pop.Some? && pop.value != 0.0
    ensures r.Some? ==> r.value * pop.value == x.value as real * 1000000.0
  {
    if x.Some? && pop.Some? && pop.value != 0.0 then
      var q := x.value as real / pop.value;
      assert q * pop.value == x.value as real;
      Some(q * 1000000.0)
    else None
  }

  /** Spread over the population counted in millions, the per-million figure gives back the count. */
  lemma PerMillionScales(x: int, pop: real)
    requires pop != 0.0
    ensures PerMillion(Some(x), Some(pop)).value * (pop / 1000000.0) == x as real
  {
    var r := PerMillion(Some(x), Some(pop)).value;
    assert r * pop == x as real * 1000000.0;
    calc {
      r * (pop / 1000000.0);
      (r * pop) / 1000000.0;
      x as real;
    }
  }

  /** As written, the figure is a factor of 10 ** 12 below the per-million one. */
  lemma PerMlnTooSmall(x: int, pop: real)
    requires pop != 0.0
    ensures PerMln(Some(x), Some(pop)).value * 1000000000000.0 == PerMillion(Some(x), Some(pop)).value
  {
    var a := PerMln(Some(x), Some(pop)).value;
    var b := PerMillion(Some(x), Some(pop)).value;
    assert a * pop * 1000000.0 == x as real;
    assert b * pop == x as real * 1000000.0;
    assert (a * 1000000000000.0) * pop == b * pop;
  }

  /** One million cases in a population of one million: one per person, yet the column reads 10 ** -6. */
  lemma PerMlnCounterexample()
    ensures PerMln(Some(1000000), Some(1000000.0)) == Some(0.000001)
    ensures PerMillion(Some(1000000), Some(1000000.0)) == Some(1000000.0)
  {
  }

  /** A row of `world_bank.csv`, its fields in the order of `Header`. */
  datatype WorldBankRow = WorldBankRow(casesPerMln: Option<real>, continent: string, country: string,
                                       deadPerMln: Option<real>, gdpHealthcare: Option<real>,
                                       gdpPerCapita: Option<real>, lifeExpectancy: Option<real>,
                                       mortality: Option<real>, recoveredPerMln: Option<real>,
                                       rural: Option<real>)

  /** The columns after the code and duplicate country columns are dropped and the rest renamed. */
  const Columns: seq<string> :=
    ["Continent", "Country", "Confirmed", "Recovered", "Dead", "Active", "Mortality %",
     "Life expectancy", "GDP per capita", "Urban population %", "Rural population %",
     "Slum population %", "Population", "GDP Healthcare %",
     "Cases per mln", "Dead per mln", "Recovered per mln"]

  /** The columns dropped after sorting. */
  const Dropped: seq<string> :=
    ["Confirmed", "Active", "Dead", "Recovered", "Urban population %", "Slum population %", "Population"]

  /** The header of `world_bank.csv`. */
  const Header: seq<string> :=
    ["Cases per mln", "Continent", "Country", "Dead per mln", "GDP Healthcare %", "GDP per capita",
     "Life expectancy", "Mortality %", "Recovered per mln", "Rural population %"]

  lemma LtSharedPrefix(p: string, a: string, b: string)
    ensures Lt(p + a, p + b) == Lt(a, b)
  {
    if p != [] {
      var x, y := p + a, p + b;
      assert x != [] && y != [] && x[0] == p[0] == y[0];
      assert x[1..] == p[1..] + a && y[1..] == p[1..] + b;
      assert Lt(x, y) == Lt(x[1..], y[1..]);
      LtSharedPrefix(p[1..], a, b);
    } else {
      assert p + a == a && p + b == b;
    }
  }

  /** Each of the first four header labels is below the next one. */
  lemma HeaderStepLow(i: nat)
    requires i < 4
    ensures Lt(Header[i], Header[i + 1])
  {
    if i == 0 {
      assert Lt("Cases per mln", "Continent");
    } else if i == 1 {
      assert Lt("Continent", "Country");
    } else if i == 2 {
      assert Lt("Country", "Dead per mln");
    } else {
      assert Lt("Dead per mln", "GDP Healthcare %");
    }
  }

  /** Each later header label is below the next one. */
  lemma HeaderStepHigh(i: nat)
    requires 4 <= i < |Header| - 1
    ensures Lt(Header[i], Header[i + 1])
  {
    if i == 4 {
      assert Header[4] == "GDP " + "Healthcare %" && Header[5] == "GDP " + "per capita";
      LtSharedPrefix("GDP ", "Healthcare %", "per capita");
    } else if i == 5 {
      assert Lt("GDP per capita", "Life expectancy");
    } else if i == 6 {
      assert Lt("Life expectancy", "Mortality %");
    } else if i == 7 {
      assert Lt("Mortality %", "Recovered per mln");
    } else {
      assert Lt("Recovered per mln", "Rural population %");
    }
  }

  /** The header is in strictly ascending order. */
  lemma HeaderSorted()
    ensures StrictlySorted(Header)
  {
    forall i | 0 <= i < |Header| - 1 ensures Lt(Header[i], Header[i + 1]) {
      if i < 4 {
        HeaderStepLow(i);
      } else {
        HeaderStepHigh(i);
      }
    }
    ChainStrictlySorted(Header);
  }

  /**
   * The header is the sorted list of the columns with the dropped ones
   * taken out; every dropped column exists, so the drop does not raise, and
   * every indicator label is one of the columns.
   */
  lemma HeaderIsSortedColumns()
    ensures StrictlySorted(Header)
    ensures forall c :: c in Header <==> c in Columns && c !in Dropped
    ensures forall c :: c in Dropped ==> c in Columns
    ensures forall c :: c in Labels() ==> c in Columns
  {
    HeaderSorted();
    assert Labels() == ["Life expectancy", "GDP per capita", "Urban population %", "Rural population %",
                        "Slum population %", "Population", "GDP Healthcare %"];
  }

  /** The output row of a joined row: the kept columns, and the per-mln figures as written. */
  function Output(j: Joined): WorldBankRow
  {
    var v := j.wb.vals;
    var pop := Cell(v, Population);
    WorldBankRow(PerMln(j.place.stats.confirmed, pop), j.place.continent, j.place.country,
                 PerMln(j.place.stats.dead, pop), Cell(v, GdpHealthcare), Cell(v, GdpPerCapita),
                 Cell(v, LifeExpectancy), j.place.stats.mortality, PerMln(j.place.stats.recovered, pop),
                 Cell(v, RuralPopulation))
  }

  /**
   * out is the output row of surviving row j among the surviving rows js:
   * the imputed columns are j's value or, where j has none, the column's
   * median over js.
   */
  predicate Describes(out: WorldBankRow, j: Joined, js: seq<Joined>)
  {
    var v := j.wb.vals;
    var pop := Cell(v, Population);
    && out.country == j.place.country && out.continent == j.place.continent
    && out.mortality == j.place.stats.mortality && out.rural == Cell(v, RuralPopulation)
    && out.casesPerMln == PerMln(j.place.stats.confirmed, pop)
    && out.deadPerMln == PerMln(j.place.stats.dead, pop)
    && out.recoveredPerMln == PerMln(j.place.stats.recovered, pop)
    && out.lifeExpectancy == Filled(Cell(v, LifeExpectancy), Median(ColumnOf(js, LifeExpectancy)))
    && out.gdpHealthcare == Filled(Cell(v, GdpHealthcare), Median(ColumnOf(js, GdpHealthcare)))
    && out.gdpPerCapita == Filled(Cell(v, GdpPerCapita), Median(ColumnOf(js, GdpPerCapita)))
  }

  /** Every surviving row carries one cell per indicator file. */
  lemma KeptWidths(ind: seq<seq<Obs>>, codes: seq<WbCode>, cont: seq<ContinentRow>, stats: seq<StatsRow>)
    requires |ind| > 0
    ensures forall j :: j in Kept(ind, codes, cont, stats) ==> |j.wb.vals| == |ind|
  {
    forall j | j in Kept(ind, codes, cont, stats) ensures |j.wb.vals| == |ind| {
      KeptRows(ind, codes, cont, stats, j);
      var rows := Merged(ind).rows;
      var i :| 0 <= i < |rows| && rows[i] == Row(j.wb.country, j.wb.vals);
    }
  }

  /** The columns other than one imputed column look the same after it is imputed. */
  lemma ImputeOtherColumn(js: seq<Joined>, k: nat, c: nat)
    requires c != k
    ensures ColumnOf(Impute(js, k), c) == ColumnOf(js, c)
  {
    ImputeCells(js, k);
  }

  /** Some row of js has column k present. */
  predicate AnyPresent(js: seq<Joined>, k: nat)
  {
    exists i :: 0 <= i < |js| && Cell(js[i].wb.vals, k).Some?
  }

  /** The three `fillna(median)` steps, in the order they are applied. */
  function ImputeAll(js: seq<Joined>): seq<Joined>
  {
    Impute(Impute(Impute(js, LifeExpectancy), GdpHealthcare), GdpPerCapita)
  }

  /** After the three steps, each row keeps its fields and its present cells, and a missing imputed cell holds its column's median. */
  lemma ImputeAllRows(js: seq<Joined>, i: nat)
    requires forall k :: 0 <= k < |js| ==> |js[k].wb.vals| == |Files|
    requires i < |js|
    ensures |ImputeAll(js)| == |js| && Describes(Output(ImputeAll(js)[i]), js[i], js)
  {
    var t1 := Impute(js, LifeExpectancy);
    var t2 := Impute(t1, GdpHealthcare);
    ImputeCells(js, LifeExpectancy);
    ImputeCells(t1, GdpHealthcare);
    ImputeCells(t2, GdpPerCapita);
    ImputeOtherColumn(js, LifeExpectancy, GdpHealthcare);
    ImputeOtherColumn(js, LifeExpectancy, GdpPerCapita);
    ImputeOtherColumn(t1, GdpHealthcare, GdpPerCapita);
  }

  /** Filling a cell of a column that has a present value gives a present value. */
  lemma FilledPresent(js: seq<Joined>, k: nat, i: nat)
    requires AnyPresent(js, k) && i < |js|
    ensures Filled(Cell(js[i].wb.vals, k), Median(ColumnOf(js, k))).Some?
  {
    var n :| 0 <= n < |js| && Cell(js[n].wb.vals, k).Some?;
    assert ColumnOf(js, k)[n].Some?;
  }

  /** An imputed column with a present value before the steps has none missing after them. */
  lemma ImputeAllComplete(js: seq<Joined>, i: nat)
    requires forall k :: 0 <= k < |js| ==> |js[k].wb.vals| == |Files|
    requires i < |js|
    ensures var out := Output(ImputeAll(js)[i]);
      && (AnyPresent(js, LifeExpectancy) ==> out.lifeExpectancy.Some?)
      && (AnyPresent(js, GdpHealthcare) ==> out.gdpHealthcare.Some?)
      && (AnyPresent(js, GdpPerCapita) ==> out.gdpPerCapita.Some?)
  {
    ImputeAllRows(js, i);
    if AnyPresent(js, LifeExpectancy) {
      FilledPresent(js, LifeExpectancy, i);
    }
    if AnyPresent(js, GdpHealthcare) {
      FilledPresent(js, GdpHealthcare, i);
    }
    if AnyPresent(js, GdpPerCapita) {
      FilledPresent(js, GdpPerCapita, i);
    }
  }

  /** `world_bank[Header]`: each row cut down to the header's columns. */
  function Outputs(js: seq<Joined>): (rs: seq<WorldBankRow>)
    ensures |rs| == |js| && forall i :: 0 <= i < |js| ==> rs[i] == Output(js[i])
  {
    seq(|js|, i requires 0 <= i < |js| => Output(js[i]))
  }

  /** The output rows of the imputed surviving rows describe them, and no imputed column with a value has a gap. */
  lemma OutputsDescribe(kept: seq<Joined>)
    requires forall k :: 0 <= k < |kept| ==> |kept[k].wb.vals| == |Files|
    ensures var r := Outputs(ImputeAll(kept));
      && |r| == |kept|
      && (forall i :: 0 <= i < |r| ==> Describes(r[i], kept[i], kept))
      && (AnyPresent(kept, LifeExpectancy) ==> forall i :: 0 <= i < |r| ==> r[i].lifeExpectancy.Some?)
      && (AnyPresent(kept, GdpHealthcare) ==> forall i :: 0 <= i < |r| ==> r[i].gdpHealthcare.Some?)
      && (AnyPresent(kept, GdpPerCapita) ==> forall i :: 0 <= i < |r| ==> r[i].gdpPerCapita.Some?)
  {
    ImputeCells(kept, LifeExpectancy);
    forall i | 0 <= i < |kept| ensures Describes(Outputs(ImputeAll(kept))[i], kept[i], kept) {
      ImputeAllRows(kept, i);
    }
    forall i | 0 <= i < |kept|
      ensures var out := Outputs(ImputeAll(kept))[i];
        && (AnyPresent(kept, LifeExpectancy) ==> out.lifeExpectancy.Some?)
        && (AnyPresent(kept, GdpHealthcare) ==> out.gdpHealthcare.Some?)
        && (AnyPresent(kept, GdpPerCapita) ==> out.gdpPerCapita.Some?)
    {
      ImputeAllComplete(kept, i);
    }
  }

  /** `for i in range(len(dataframes)): dataframes[i] = get_world_bank_data(dataframes[i])`. */
  method LatestAll(indicators: seq<seq<Obs>>) returns (frames: seq<Frame<real>>)
    ensures frames == LatestFrames(indicators)
  {
    frames := [];
    for i := 0 to |indicators|
      invariant frames == LatestFrames(indicators[..i])
    {
      assert indicators[..i + 1] == indicators[..i] + [indicators[i]];
      frames := frames + [GetWorldBankData(indicators[i])];
    }
    assert indicators[..|indicators|] == indicators;
  }

  /**
   * `make_world_bank` from the merged inputs on: the indicator files are
   * reduced to their latest observations one by one, merged, matched to the
   * covid countries, filtered, imputed column by column, and cut down to
   * the header's columns. Each output row describes one surviving row, and
   * an imputed column with any value left after the filters has none
   * missing.
   */
  method MakeWorldBank(indicators: seq<seq<Obs>>, codes: seq<WbCode>, cont: seq<ContinentRow>, stats: seq<StatsRow>)
    returns (r: seq<WorldBankRow>)
    requires |indicators| == |Files|
    ensures var kept := Kept(indicators, codes, cont, stats);
      && |r| == |kept|
      && (forall i :: 0 <= i < |r| ==> Describes(r[i], kept[i], kept))
      && (AnyPresent(kept, LifeExpectancy) ==> forall i :: 0 <= i < |r| ==> r[i].lifeExpectancy.Some?)
      && (AnyPresent(kept, GdpHealthcare) ==> forall i :: 0 <= i < |r| ==> r[i].gdpHealthcare.Some?)
      && (AnyPresent(kept, GdpPerCapita) ==> forall i :: 0 <= i < |r| ==> r[i].gdpPerCapita.Some?)
  {
    var frames := LatestAll(indicators);
    UnitWidths(frames);
    var world := OuterJoinAll(frames);
    var coded := MergeCodes(world.rows, codes);
    var countries := MergeStats(cont, stats);
    var table := MergeOnCode(countries, coded);
    table := AboveCutoff(table);
    table := NotYemen(table);
    ghost var kept := table;
    table := Impute(table, LifeExpectancy);
    table := Impute(table, GdpHealthcare);
    table := Impute(table, GdpPerCapita);
    assert table == ImputeAll(kept);
    r := Outputs(table);
    assert kept == Kept(indicators, codes, cont, stats);
    MakeWorldBankRows(indicators, codes, cont, stats);
  }

  /** The outputs of the kept rows are what `make_world_bank` promises. */
  lemma MakeWorldBankRows(indicators: seq<seq<Obs>>, codes: seq<WbCode>, cont: seq<ContinentRow>, stats: seq<StatsRow>)
    requires |indicators| == |Files|
    ensures var kept := Kept(indicators, codes, cont, stats);
      var r := Outputs(ImputeAll(kept));
      && |r| == |kept|
      && (forall i :: 0 <= i < |r| ==> Describes(r[i], kept[i], kept))
      && (AnyPresent(kept, LifeExpectancy) ==> forall i :: 0 <= i < |r| ==> r[i].lifeExpectancy.Some?)
      && (AnyPresent(kept, GdpHealthcare) ==> forall i :: 0 <= i < |r| ==> r[i].gdpHealthcare.Some?)
      && (AnyPresent(kept, GdpPerCapita) ==> forall i :: 0 <= i < |r| ==> r[i].gdpPerCapita.Some?)
  {
    KeptWidths(indicators, codes, cont, stats);
    OutputsDescribe(Kept(indicators, codes, cont, stats));
  }
}
