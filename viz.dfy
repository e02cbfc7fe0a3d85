/**
 * The query side of the visualisation class: rankings of the per-country
 * snapshot, and the cases time series of one country, of one continent and
 * of the whole world. The class keeps the processed tables its queries
 * read; no query changes them.
 */
module Viz {
  import opened Wrappers
  import opened Order
  import opened Frames
  import opened Utils
  import opened Coordinates
  import opened Continents
  import opened CountryStats

  // ---------------------------------------------------------------- rankings

  /** A column of `country_stats.csv` a ranking can sort on. */
  datatype Stat = Confirmed | Recovered | Dead | Active | Mortality

  function StatName(k: Stat): string
  {
    match k
    case Confirmed => "Confirmed"
    case Recovered => "Recovered"
    case Dead => "Dead"
    case Active => "Active"
    case Mortality => "Mortality"
  }

  function AsReal(c: Option<int>): Option<real>
  {
    if c.Some? then Some(c.value as real) else None
  }

  /** The entry of a stats row in column k. */
  function StatOf(s: StatsRow, k: Stat): Option<real>
  {
    match k
    case Confirmed => AsReal(s.confirmed)
    case Recovered => AsReal(s.recovered)
    case Dead => AsReal(s.dead)
    case Active => AsReal(s.active)
    case Mortality => s.mortality
  }

  /** A row of a ranking: Country and the sorted-on statistic. */
  datatype Ranked = Ranked(country: string, value: Option<real>)

  /** a may precede b in a descending sort that puts missing values last. */
  predicate NotBelow(a: Option<real>, b: Option<real>)
  {
    b.None? || (a.Some? && a.value >= b.value)
  }

  /** a ranks strictly ahead of b. */
  predicate Above(a: Option<real>, b: Option<real>)
  {
    a.Some? && (b.None? || a.value > b.value)
  }

  predicate Descending(r: seq<Ranked>)
  {
    forall i, j :: 0 <= i < j < |r| ==> NotBelow(r[i].value, r[j].value)
  }

  lemma ConsDescending(y: Ranked, t: seq<Ranked>)
    requires Descending(t)
    requires forall z :: z in t ==> NotBelow(y.value, z.value)
    ensures Descending([y] + t)
  {
    var s := [y] + t;
    forall i, j | 0 <= i < j < |s| ensures NotBelow(s[i].value, s[j].value) {
      if i == 0 {
        assert s[j] == t[j - 1] && t[j - 1] in t;
      } else {
        assert s[i] == t[i - 1] && s[j] == t[j - 1];
      }
    }
  }

  lemma DescendingTail(s: seq<Ranked>)
    requires Descending(s) && s != []
    ensures Descending(s[1..])
    ensures forall z :: z in s[1..] ==> NotBelow(s[0].value, z.value)
  {
    var u := s[1..];
    forall i, j | 0 <= i < j < |u| ensures NotBelow(u[i].value, u[j].value) {
      assert u[i] == s[i + 1] && u[j] == s[j + 1];
    }
    forall z | z in u ensures NotBelow(s[0].value, z.value) {
      var k :| 0 <= k < |u| && u[k] == z;
      assert s[k + 1] == z;
    }
  }

  /** A row not below the head of a descending list can go in front of it. */
  lemma AheadOfAll(x: Ranked, s: seq<Ranked>)
    requires Descending(s) && s != [] && NotBelow(x.value, s[0].value)
    ensures Descending([x] + s)
  {
    forall z | z in s ensures NotBelow(x.value, z.value) {
      var k :| 0 <= k < |s| && s[k] == z;
      if k > 0 {
        assert NotBelow(s[0].value, s[k].value);
      }
    }
    ConsDescending(x, s);
  }

  /** A bound on every row of u and on x bounds every row of u with x added. */
  lemma BoundAfterInsert(y: Ranked, x: Ranked, u: seq<Ranked>, t: seq<Ranked>)
    requires multiset(t) == multiset(u) + multiset{x}
    requires NotBelow(y.value, x.value) && forall z :: z in u ==> NotBelow(y.value, z.value)
    ensures forall z :: z in t ==> NotBelow(y.value, z.value)
  {
    forall z | z in t ensures NotBelow(y.value, z.value) {
      assert z in multiset(t);
      if z != x {
        assert z in multiset(u);
      }
    }
  }

  /** Inserts x ahead of the first row it does not rank below. */
  function InsertDesc(x: Ranked, s: seq<Ranked>): (r: seq<Ranked>)
    requires Descending(s)
    ensures Descending(r)
    ensures multiset(r) == multiset(s) + multiset{x}
  {
    if s == [] then [x]
    else if NotBelow(x.value, s[0].value) then
      AheadOfAll(x, s);
      [x] + s
    else
      assert s == [s[0]] + s[1..];
      DescendingTail(s);
      var t := InsertDesc(x, s[1..]);
      BoundAfterInsert(s[0], x, s[1..], t);
      ConsDescending(s[0], t);
      [s[0]] + t
  }

  /** `sort_values(stat, ascending=False)`: the rows by decreasing statistic, missing values last. */
  function SortDesc(s: seq<Ranked>): (r: seq<Ranked>)
    ensures Descending(r)
    ensures multiset(r) == multiset(s)
    ensures |r| == |s|
  {
    if s == [] then []
    else
      assert s == [s[0]] + s[1..];
      var r := InsertDesc(s[0], SortDesc(s[1..]));
      assert |r| == |multiset(r)|;
      r
  }

  /** `df[df['Confirmed'] > min_cases]`: a missing count compares false. */
  function Eligible(stats: seq<StatsRow>, minCases: int): seq<StatsRow>
  {
    Where(stats, (s: StatsRow) => s.confirmed.Some? && s.confirmed.value > minCases)
  }

  /** `df[['Country', stat]]`. */
  function Ranks(rows: seq<StatsRow>, k: Stat): (r: seq<Ranked>)
    ensures |r| == |rows| && forall i :: 0 <= i < |rows| ==> r[i] == Ranked(rows[i].country, StatOf(rows[i], k))
  {
    seq(|rows|, i requires 0 <= i < |rows| => Ranked(rows[i].country, StatOf(rows[i], k)))
  }

  /** The candidates of a ranking: the country and statistic of every row with more than minCases confirmed. */
  function Pool(stats: seq<StatsRow>, k: Stat, minCases: int): seq<Ranked>
  {
    Ranks(Eligible(stats, minCases), k)
  }

  /** Filtered, sorted, cut to two columns, then `head(n)`. */
  function Ranking(stats: seq<StatsRow>, k: Stat, minCases: int, n: int): seq<Ranked>
  {
    Head(SortDesc(Pool(stats, k, minCases)), n)
  }

  /**
   * r is a top-n list of pool: as many rows as `head(n)` keeps, each taken
   * from the pool (no row more often than there), in decreasing order, and
   * any pool row that ranks strictly ahead of a returned row is returned
   * before it. Only the order among equal values is left open.
   */
  predicate IsTop(r: seq<Ranked>, pool: seq<Ranked>, n: int)
  {
    && |r| == HeadLength(|pool|, n)
    && multiset(r) <= multiset(pool)
    && Descending(r)
    && forall e, i :: e in pool && 0 <= i < |r| && Above(e.value, r[i].value) ==> e in r[..i]
  }

  /** A candidate is the country and statistic of a stats row with more than minCases confirmed. */
  lemma PoolMembers(stats: seq<StatsRow>, k: Stat, minCases: int, e: Ranked)
    ensures e in Pool(stats, k, minCases) <==>
              exists s :: s in stats && s.confirmed.Some? && s.confirmed.value > minCases && e == Ranked(s.country, StatOf(s, k))
  {
    var el := Eligible(stats, minCases);
    if e in Pool(stats, k, minCases) {
      var i :| 0 <= i < |el| && Pool(stats, k, minCases)[i] == e;
      assert el[i] in el;
    }
    if exists s :: s in stats && s.confirmed.Some? && s.confirmed.value > minCases && e == Ranked(s.country, StatOf(s, k)) {
      var s :| s in stats && s.confirmed.Some? && s.confirmed.value > minCases && e == Ranked(s.country, StatOf(s, k));
      assert s in el;
      var i :| 0 <= i < |el| && el[i] == s;
      assert Pool(stats, k, minCases)[i] == e;
    }
  }

  /** In a descending list no row ranks strictly ahead of an earlier one. */
  lemma DescendingNotAbove(s: seq<Ranked>, i: nat, p: nat)
    requires Descending(s) && i <= p < |s|
    ensures !Above(s[p].value, s[i].value)
  {
    if i < p {
      assert NotBelow(s[i].value, s[p].value);
    }
  }

  /** The head of a descending list is a top-n list of that list. */
  lemma HeadIsTop(s: seq<Ranked>, n: int)
    requires Descending(s)
    ensures IsTop(Head(s, n), s, n)
  {
    var r := Head(s, n);
    var h := |r|;
    assert s == r + s[h..];
    assert multiset(s) == multiset(r) + multiset(s[h..]);
    forall e, i | e in s && 0 <= i < |r| && Above(e.value, r[i].value) ensures e in r[..i] {
      var p :| 0 <= p < |s| && s[p] == e;
      if p >= i {
        DescendingNotAbove(s, i, p);
        assert false;
      }
      assert r[..i][p] == e;
    }
  }

  /** A top-n list of one list is a top-n list of any permutation of it. */
  lemma TopOfPermutation(r: seq<Ranked>, s: seq<Ranked>, pool: seq<Ranked>, n: int)
    requires IsTop(r, s, n) && multiset(s) == multiset(pool)
    ensures IsTop(r, pool, n)
  {
    assert |s| == |multiset(s)| == |pool|;
    forall e | e in pool ensures e in s {
      assert e in multiset(pool);
    }
  }

  /** The ranking is a top-n list of its candidates. */
  lemma RankingIsTop(stats: seq<StatsRow>, k: Stat, minCases: int, n: int)
    ensures IsTop(Ranking(stats, k, minCases, n), Pool(stats, k, minCases), n)
  {
    var pool := Pool(stats, k, minCases);
    HeadIsTop(SortDesc(pool), n);
    TopOfPermutation(Ranking(stats, k, minCases, n), SortDesc(pool), pool, n);
  }

  // ---------------------------------------------------------------- sums over countries

  /** A missing entry adds nothing to a row sum. */
  function Count(c: Option<int>): int
  {
    if c.Some? then c.value else 0
  }

  predicate Covers(t: Table<int>, names: seq<string>)
  {
    forall c :: c in names ==> c in t.names
  }

  /** The entry of column n on row i, as a sum counts it. */
  function CellCount(t: Table<int>, i: nat): (f: string -> int)
  {
    (n: string) => if t.Valid() && n in t.names && i < |t.dates| then Count(t.Column(n)[i]) else 0
  }

  /** f of every listed name added up, a name listed twice counted twice. */
  function SumBy(names: seq<string>, f: string -> int): int
  {
    if names == [] then 0 else f(names[0]) + SumBy(names[1..], f)
  }

  /** `t[names].sum(axis=1)` on row i: the present entries of the named columns added up. */
  function RowSum(t: Table<int>, names: seq<string>, i: nat): int
    requires t.Valid() && Covers(t, names) && i < |t.dates|
  {
    SumBy(names, CellCount(t, i))
  }

  /** Summing over two lists one after the other. */
  lemma {:induction false} SumByConcat(a: seq<string>, b: seq<string>, f: string -> int)
    ensures SumBy(a + b, f) == SumBy(a, f) + SumBy(b, f)
  {
    if a == [] {
      assert a + b == b;
    } else {
      assert (a + b)[1..] == a[1..] + b;
      SumByConcat(a[1..], b, f);
    }
  }

  /** Taking one listed name out of a sum. */
  lemma SumByRemove(b: seq<string>, k: nat, f: string -> int)
    requires k < |b|
    ensures SumBy(b, f) == f(b[k]) + SumBy(b[..k] + b[k + 1..], f)
  {
    var u := b[..k];
    var v := b[k + 1..];
    var w := [b[k]] + v;
    assert b == u + w;
    assert w[1..] == v;
    SumByConcat(u, w, f);
    SumByConcat(u, v, f);
  }

  lemma MultisetRemove(b: seq<string>, k: nat)
    requires k < |b|
    ensures multiset(b[..k] + b[k + 1..]) == multiset(b) - multiset{b[k]}
  {
    assert b == b[..k] + [b[k]] + b[k + 1..];
  }

  /** Which names are summed matters, not their order. */
  lemma {:induction false} SumByPermutation(a: seq<string>, b: seq<string>, f: string -> int)
    requires multiset(a) == multiset(b)
    ensures SumBy(a, f) == SumBy(b, f)
    decreases |a|
  {
    if a == [] {
      assert |b| == |multiset(b)| == 0;
    } else {
      assert a[0] in multiset(b);
      var k :| 0 <= k < |b| && b[k] == a[0];
      SumByRemove(b, k, f);
      MultisetRemove(b, k);
      var tail := a[1..];
      assert multiset(tail) == multiset(a) - multiset{a[0]} by {
        assert a == [a[0]] + tail;
      }
      SumByPermutation(tail, b[..k] + b[k + 1..], f);
    }
  }

  lemma CoversPermutation(t: Table<int>, a: seq<string>, b: seq<string>)
    requires Covers(t, a) && multiset(a) == multiset(b)
    ensures Covers(t, b)
  {
    forall c | c in b ensures c in t.names {
      assert c in multiset(a);
    }
  }

  /** The columns summed matter, not their order: `sorted` does not change the sums. */
  lemma RowSumPermutation(t: Table<int>, a: seq<string>, b: seq<string>, i: nat)
    requires t.Valid() && Covers(t, a) && multiset(a) == multiset(b) && i < |t.dates|
    ensures Covers(t, b) && RowSum(t, a, i) == RowSum(t, b, i)
  {
    CoversPermutation(t, a, b);
    SumByPermutation(a, b, CellCount(t, i));
  }

  /** A sum over two lists of columns is the sum of the two sums. */
  lemma RowSumConcat(t: Table<int>, a: seq<string>, b: seq<string>, i: nat)
    requires t.Valid() && Covers(t, a) && Covers(t, b) && i < |t.dates|
    ensures Covers(t, a + b) && RowSum(t, a + b, i) == RowSum(t, a, i) + RowSum(t, b, i)
  {
    assert forall c :: c in a + b ==> c in a || c in b;
    SumByConcat(a, b, CellCount(t, i));
  }

  /** The sum on date d, missing when t has no row for d. */
  function DaySum(t: Table<int>, names: seq<string>, d: Date): Option<int>
    requires t.Valid() && Covers(t, names)
  {
    if d in t.dates then Some(RowSum(t, names, IndexOf(t.dates, d))) else None
  }

  /** The summed series with the Date column put back: one row per date of t. */
  function SumFrame(t: Table<int>, names: seq<string>): (f: Frame<int>)
    requires t.Valid() && Covers(t, names)
    ensures f.Valid() && f.width == 1 && UniqueKeys(f) && Keys(f.rows) == t.dates
    ensures forall d :: Lookup(f, d) == [DaySum(t, names, d)]
  {
    var f := Frame(1, seq(|t.dates|, i requires 0 <= i < |t.dates| => Row(t.dates[i], [Some(RowSum(t, names, i))])));
    assert Keys(f.rows) == t.dates;
    assert forall d :: Lookup(f, d) == [DaySum(t, names, d)] by {
      forall d ensures Lookup(f, d) == [DaySum(t, names, d)] {
        LookupFirstMatch(f, d);
        if d in t.dates {
          MatchesSingle(f.rows, IndexOf(t.dates, d));
        } else {
          MatchesUnique(f, d);
          assert Nones<int>(1) == [None];
        }
      }
    }
    f
  }

  predicate AllCover(tables: seq<Table<int>>, lists: seq<seq<string>>)
  {
    |lists| == |tables| && forall j :: 0 <= j < |tables| ==> Covers(tables[j], lists[j])
  }

  function SumFrames(tables: seq<Table<int>>, lists: seq<seq<string>>): (fs: seq<Frame<int>>)
    requires AllTablesValid(tables) && AllCover(tables, lists)
    ensures |fs| == |tables| && AllValid(fs) && AllUnique(fs) && TotalWidth(fs) == |tables|
    ensures forall j :: 0 <= j < |tables| ==> fs[j] == SumFrame(tables[j], lists[j])
  {
    var fs := seq(|tables|, j requires 0 <= j < |tables| => SumFrame(tables[j], lists[j]));
    UnitWidths(fs);
    fs
  }

  /**
   * What a summed series is: one column per table, one row per date of any
   * table, in sorted order, where column j holds table j's sum over its
   * list of countries on that date, missing when table j lacks the date.
   */
  ghost predicate IsSums(tables: seq<Table<int>>, lists: seq<seq<string>>, f: Frame<int>)
    requires AllTablesValid(tables) && AllCover(tables, lists)
  {
    && f.Valid() && f.width == |tables| && UniqueKeys(f)
    && (|tables| > 1 ==> StrictlySorted(Keys(f.rows)))
    && (forall d :: d in Keys(f.rows) <==> exists j :: 0 <= j < |tables| && d in tables[j].dates)
    && (forall d, j :: 0 <= j < |tables| ==> Lookup(f, d)[j] == DaySum(tables[j], lists[j], d))
  }

  function DaySums(tables: seq<Table<int>>, lists: seq<seq<string>>, d: Date): (v: seq<Option<int>>)
    requires AllTablesValid(tables) && AllCover(tables, lists)
    ensures |v| == |tables| && forall j :: 0 <= j < |tables| ==> v[j] == DaySum(tables[j], lists[j], d)
  {
    seq(|tables|, j requires 0 <= j < |tables| => DaySum(tables[j], lists[j], d))
  }

  /** The outer merge of the summed series on Date is a summed series. */
  lemma SumsMerged(tables: seq<Table<int>>, lists: seq<seq<string>>)
    requires |tables| > 0 && AllTablesValid(tables) && AllCover(tables, lists)
    ensures IsSums(tables, lists, OuterJoinAll(SumFrames(tables, lists)))
  {
    var fs := SumFrames(tables, lists);
    var m := OuterJoinAll(fs);
    OuterJoinAllUnique(fs);
    forall d ensures Lookup(m, d) == DaySums(tables, lists, d)
      && (d in Keys(m.rows) <==> exists j :: 0 <= j < |tables| && d in tables[j].dates) {
      LookupAllSingles(fs, d, DaySums(tables, lists, d));
      AllKeysIn(fs, d);
      if exists j :: 0 <= j < |tables| && d in tables[j].dates {
        var j :| 0 <= j < |tables| && d in tables[j].dates;
        assert d in Keys(fs[j].rows);
      }
    }
  }

  /** Every table summed over all of its own country columns. */
  function AllNames(tables: seq<Table<int>>): (lists: seq<seq<string>>)
    ensures AllCover(tables, lists)
    ensures forall j :: 0 <= j < |tables| ==> lists[j] == tables[j].names
  {
    seq(|tables|, j requires 0 <= j < |tables| => tables[j].names)
  }

  function Repeat(cs: seq<string>, n: nat): (lists: seq<seq<string>>)
    ensures |lists| == n && forall j :: 0 <= j < n ==> lists[j] == cs
  {
    seq(n, j requires 0 <= j < n => cs)
  }

  // ---------------------------------------------------------------- continents

  /** The filter and inner merge of `get_continent_ts`, in row order of the coordinates. */
  function ContinentMerge(coords: seq<Coord>, cont: seq<ContinentRow>, continent: string): seq<string>
  {
    InnerMerge(coords, Where(cont, (y: ContinentRow) => y.continent == continent),
               (x: Coord, y: ContinentRow) => x.country == y.country, (x: Coord, y: ContinentRow) => x.country)
  }

  /**
   * `sorted(list(cont['Country']))`: a country once per pair of a
   * coordinates row and a continents row of that continent that share it.
   */
  function ContinentCountries(coords: seq<Coord>, cont: seq<ContinentRow>, continent: string): (cs: seq<string>)
    ensures Sorted(cs)
    ensures multiset(cs) == multiset(ContinentMerge(coords, cont, continent))
  {
    Sort(ContinentMerge(coords, cont, continent))
  }

  /** The countries summed for a continent: those with coordinates and a continents row naming that continent. */
  lemma ContinentCountriesMembers(coords: seq<Coord>, cont: seq<ContinentRow>, continent: string, c: string)
    ensures c in ContinentCountries(coords, cont, continent) <==>
              (exists x :: x in coords && x.country == c)
              && (exists y :: y in cont && y.continent == continent && y.country == c)
  {
    var keep := (y: ContinentRow) => y.continent == continent;
    var on := (x: Coord, y: ContinentRow) => x.country == y.country;
    var make := (x: Coord, y: ContinentRow) => x.country;
    var w := Where(cont, keep);
    assert c in ContinentCountries(coords, cont, continent) <==> c in multiset(ContinentMerge(coords, cont, continent));
    InnerMergeMembers(coords, w, on, make, c);
    if (exists x :: x in coords && x.country == c) && (exists y :: y in cont && y.continent == continent && y.country == c) {
      var x :| x in coords && x.country == c;
      var y :| y in cont && y.continent == continent && y.country == c;
      assert y in w && on(x, y) && c == make(x, y);
    }
  }

  /** The Continent column, one entry per row; the constructor keeps each name once, sorted, with SortedSet. */
  function ContinentNames(cont: seq<ContinentRow>): seq<string>
  {
    Map(cont, (y: ContinentRow) => y.continent)
  }

  /**
   * The loop of `get_continent_ts`: each table summed over the same
   * countries, in table order; the first table lacking one of them fails
   * with the first such name.
   */
  method CaseSums(cases: seq<Table<int>>, countries: seq<string>) returns (r: Result<seq<Frame<int>>>)
    requires AllTablesValid(cases)
    ensures r.Ok? <==> forall c :: c in countries ==> HasCountry(cases, c)
    ensures r.Err? ==> && r.error.MissingLabel? && r.error.name in countries
                       && exists j :: 0 <= j < |cases| && r.error.name !in cases[j].names
    ensures r.Ok? ==> AllCover(cases, Repeat(countries, |cases|)) && r.value == SumFrames(cases, Repeat(countries, |cases|))
  {
    var dfs: seq<Frame<int>> := [];
    for j := 0 to |cases|
      invariant forall k :: 0 <= k < j ==> Covers(cases[k], countries)
      invariant |dfs| == j && forall k :: 0 <= k < j ==> dfs[k] == SumFrame(cases[k], countries)
    {
      var missing := FirstMissing(countries, cases[j].names);
      if missing.Some? {
        assert !HasCountry(cases, missing.value);
        return Err(MissingLabel(missing.value));
      }
      dfs := dfs + [SumFrame(cases[j], countries)];
    }
    r := Ok(dfs);
  }

  const CaseNames: seq<string> := ["Confirmed", "Recovered", "Dead", "Active"]

  // ---------------------------------------------------------------- the class

  class CovidDataViz {
    var confirmed: Table<int>
    var recovered: Table<int>
    var dead: Table<int>
    var active: Table<int>
    var coordinates: seq<Coord>
    var continents: seq<ContinentRow>
    var countryStats: seq<StatsRow>
    var allCountries: seq<string>
    var allContinents: seq<string>

    /** The four cases tables, in the order the queries go through them. */
    function Cases(): (ts: seq<Table<int>>)
      reads this
      ensures |ts| == |CaseNames|
    {
      [confirmed, recovered, dead, active]
    }

    predicate Valid()
      reads this
    {
      && AllTablesValid(Cases())
      && allCountries == SortedSet(CountriesOf(coordinates))
      && allContinents == SortedSet(ContinentNames(continents))
    }

    /** The processed tables, with the sorted lists of countries and continents. */
    constructor (confirmed: Table<int>, recovered: Table<int>, dead: Table<int>, active: Table<int>,
                 coordinates: seq<Coord>, continents: seq<ContinentRow>, countryStats: seq<StatsRow>)
      requires AllTablesValid([confirmed, recovered, dead, active])
      ensures Valid()
      ensures Cases() == [confirmed, recovered, dead, active]
      ensures this.coordinates == coordinates && this.continents == continents && this.countryStats == countryStats
      ensures StrictlySorted(allCountries) && forall c :: c in allCountries <==> exists x :: x in coordinates && x.country == c
      ensures StrictlySorted(allContinents) && forall c :: c in allContinents <==> exists y :: y in continents && y.continent == c
    {
      this.confirmed := confirmed;
      this.recovered := recovered;
      this.dead := dead;
      this.active := active;
      this.coordinates := coordinates;
      this.continents := continents;
      this.countryStats := countryStats;
      allCountries := SortedSet(CountriesOf(coordinates));
      allContinents := SortedSet(ContinentNames(continents));
      new;
      forall c | c in allCountries ensures exists x :: x in coordinates && x.country == c {
        var i :| 0 <= i < |coordinates| && CountriesOf(coordinates)[i] == c;
        assert coordinates[i] in coordinates;
      }
      forall c | c in allContinents ensures exists y :: y in continents && y.continent == c {
        var i :| 0 <= i < |continents| && ContinentNames(continents)[i] == c;
        assert continents[i] in continents;
      }
      forall x | x in coordinates ensures x.country in allCountries {
        var i :| 0 <= i < |coordinates| && coordinates[i] == x;
        assert CountriesOf(coordinates)[i] == x.country;
      }
      forall y | y in continents ensures y.continent in allContinents {
        var i :| 0 <= i < |continents| && continents[i] == y;
        assert ContinentNames(continents)[i] == y.continent;
      }
    }

    /**
     * `_sort_ctry_stats`: the countries with more than minCases confirmed,
     * by decreasing stat, missing values last, the first n of them, in
     * the columns Country and the stat.
     */
    method SortCtryStats(stat: Stat, minCases: int := 5000, n: int := 10) returns (header: seq<string>, r: seq<Ranked>)
      ensures header == ["Country", StatName(stat)]
      ensures IsTop(r, Pool(countryStats, stat, minCases), n)
    {
      RankingIsTop(countryStats, stat, minCases, n);
      header := ["Country", StatName(stat)];
      r := Ranking(countryStats, stat, minCases, n);
    }

    /** `list_highest_mortality`: the ranking on Mortality with the default cut-off. */
    method ListHighestMortality(n: int := 10) returns (header: seq<string>, r: seq<Ranked>)
      ensures header == ["Country", "Mortality"]
      ensures IsTop(r, Pool(countryStats, Mortality, 5000), n)
    {
      header, r := SortCtryStats(Mortality, 5000, n);
    }

    /** `get_most_cases`: the ranking on one statistic with the default cut-off. */
    method GetMostCases(caseType: Stat, n: int := 10) returns (header: seq<string>, r: seq<Ranked>)
      ensures header == ["Country", StatName(caseType)]
      ensures IsTop(r, Pool(countryStats, caseType, 5000), n)
    {
      header, r := SortCtryStats(caseType, 5000, n);
    }

    /**
     * `get_highest_mortality`: filtered on minCases, sorted on Mortality,
     * cut to nCountries rows, then to the columns Country and Mortality.
     */
    method GetHighestMortality(nCountries: int, minCases: int := 1000) returns (header: seq<string>, r: seq<Ranked>)
      ensures header == ["Country", "Mortality"]
      ensures IsTop(r, Pool(countryStats, Mortality, minCases), nCountries)
    {
      RankingIsTop(countryStats, Mortality, minCases, nCountries);
      header := ["Country", "Mortality"];
      r := Ranking(countryStats, Mortality, minCases, nCountries);
    }

    /**
     * `get_country_ts`: the country's column of each cases table,
     * outer-merged on Date, without filling gaps. Selecting a country that a
     * table lacks fails with that name.
     */
    method GetCountryTs(country: string) returns (r: Result<Labelled<int>>)
      requires Valid()
      ensures r.Ok? <==> HasCountry(Cases(), country)
      ensures r.Err? ==> r.error == MissingLabel(country)
      ensures r.Ok? ==> var m := r.value.frame;
        && r.value.header == ["Date"] + CaseNames
        && m.Valid() && m.width == |CaseNames| && UniqueKeys(m) && StrictlySorted(Keys(m.rows))
        && (forall d :: d in Keys(m.rows) <==> exists j :: 0 <= j < |CaseNames| && d in Cases()[j].dates)
        && (forall j :: 0 <= j < |CaseNames| ==> m.Column(j) == CellsOn(Cases()[j], country, Keys(m.rows)))
    {
      var cases := Cases();
      if !HasCountry(cases, country) {
        return Err(MissingLabel(country));
      }
      var dfs := SeriesFrames(cases, country);
      MergedShape(cases, country);
      MergedColumns(cases, country);
      r := Ok(Labelled(["Date"] + CaseNames, OuterJoinAll(dfs)));
    }

    /**
     * `get_world_ts`: each cases table summed over all its countries per
     * date, then outer-merged on Date. The key column stays where the first
     * series put it, after Confirmed.
     */
    method GetWorldTs() returns (header: seq<string>, f: Frame<int>)
      requires Valid()
      ensures header == ["Confirmed", "Date", "Recovered", "Dead", "Active"]
      ensures IsSums(Cases(), AllNames(Cases()), f)
    {
      var cases := Cases();
      var lists := AllNames(cases);
      var dfs: seq<Frame<int>> := [];
      for j := 0 to |cases|
        invariant |dfs| == j && forall k :: 0 <= k < j ==> dfs[k] == SumFrame(cases[k], lists[k])
      {
        dfs := dfs + [SumFrame(cases[j], cases[j].names)];
      }
      assert dfs == SumFrames(cases, lists);
      SumsMerged(cases, lists);
      header := ["Confirmed", "Date", "Recovered", "Dead", "Active"];
      f := OuterJoinAll(dfs);
    }

    /**
     * `get_continent_ts`: each cases table summed over the sorted countries
     * of the continent per date, outer-merged on Date, with Date first.
     * Selecting a country a table lacks fails with a missing label.
     */
    method GetContinentTs(continent: string) returns (r: Result<Labelled<int>>)
      requires Valid()
      ensures var cs := ContinentCountries(coordinates, continents, continent);
        r.Ok? <==> forall c :: c in cs ==> HasCountry(Cases(), c)
      ensures var cs := ContinentCountries(coordinates, continents, continent);
        r.Err? ==> && r.error.MissingLabel? && r.error.name in cs
                   && exists j :: 0 <= j < |CaseNames| && r.error.name !in Cases()[j].names
      ensures var cs := ContinentCountries(coordinates, continents, continent);
        r.Ok? ==> && r.value.header == ["Date"] + CaseNames
                  && AllCover(Cases(), Repeat(cs, |CaseNames|))
                  && IsSums(Cases(), Repeat(cs, |CaseNames|), r.value.frame)
    {
      var cases := Cases();
      var countries := ContinentCountries(coordinates, continents, continent);
      var dfs := CaseSums(cases, countries);
      if dfs.Err? {
        return Err(dfs.error);
      }
      SumsMerged(cases, Repeat(countries, |cases|));
      r := Ok(Labelled(["Date"] + CaseNames, OuterJoinAll(dfs.value)));
    }
  }
}
