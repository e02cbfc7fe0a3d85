/**
 * The confirmed, recovered and dead case tables built from the wide
 * time-series files (one row per province, one column per date), and the
 * active-cases table computed from them.
 */
module Cases {
  import opened Wrappers
  import opened Order
  import opened Frames
  import opened Utils

  /** One row of a raw time-series file: Province/State, Country/Region, Lat, Long and the counts. */
  datatype RawRow = RawRow(province: Option<string>, country: string, lat: Option<real>,
                           long: Option<real>, counts: seq<Option<int>>)

  /** A raw file: its date headers, in file order, and its rows. */
  datatype RawTable = RawTable(dates: seq<Date>, rows: seq<RawRow>)
  {
    /** Every row has one count per date header; read_csv makes the headers distinct. */
    predicate Valid()
    {
      && Distinct(dates)
      && forall i :: 0 <= i < |rows| ==> |rows[i].counts| == |dates|
    }
  }

  /** A missing count adds nothing to a pandas sum. */
  function Count(x: Option<int>): int
  {
    if x.Some? then x.value else 0
  }

  /** The count table of a raw file, row by row. */
  function Counts(raw: RawTable): (c: seq<seq<Option<int>>>)
    ensures |c| == |raw.rows| && forall i :: 0 <= i < |raw.rows| ==> c[i] == raw.rows[i].counts
  {
    seq(|raw.rows|, i requires 0 <= i < |raw.rows| => raw.rows[i].counts)
  }

  /** The Country column after `rename_countries`. */
  function Renamed(raw: RawTable): (c: seq<string>)
    ensures |c| == |raw.rows| && forall i :: 0 <= i < |raw.rows| ==> c[i] == RenameCountry(raw.rows[i].country)
  {
    seq(|raw.rows|, i requires 0 <= i < |raw.rows| => RenameCountry(raw.rows[i].country))
  }

  predicate Rectangular(counts: seq<seq<Option<int>>>, n: nat)
  {
    forall i :: 0 <= i < |counts| ==> |counts[i]| == n
  }

  /** The counts of every row on date t, missing ones as zero. */
  function OnDate(counts: seq<seq<Option<int>>>, t: nat): (v: seq<int>)
    requires forall i :: 0 <= i < |counts| ==> t < |counts[i]|
    ensures |v| == |counts| && forall i :: 0 <= i < |counts| ==> v[i] == Count(counts[i][t])
  {
    seq(|counts|, i requires 0 <= i < |counts| => Count(counts[i][t]))
  }

  /** The sum of the values of the rows whose country is c. */
  function GroupSum(countries: seq<string>, vals: seq<int>, c: string): int
    requires |countries| == |vals|
  {
    if countries == [] then 0
    else (if countries[0] == c then vals[0] else 0) + GroupSum(countries[1..], vals[1..], c)
  }

  function Sum(vals: seq<int>): int
  {
    if vals == [] then 0 else vals[0] + Sum(vals[1..])
  }

  /** The group sums of the keys ks, added up. */
  function SumOfGroups(countries: seq<string>, vals: seq<int>, ks: seq<string>): int
    requires |countries| == |vals|
  {
    if ks == [] then 0 else GroupSum(countries, vals, ks[0]) + SumOfGroups(countries, vals, ks[1..])
  }

  /** Over distinct keys, v counts once when c is among them and not at all otherwise. */
  function Indicator(ks: seq<string>, c: string, v: int): int
  {
    if ks == [] then 0 else (if ks[0] == c then v else 0) + Indicator(ks[1..], c, v)
  }

  lemma {:induction false} IndicatorOnce(ks: seq<string>, c: string, v: int)
    requires Distinct(ks)
    ensures Indicator(ks, c, v) == if c in ks then v else 0
  {
    if ks != [] {
      DistinctTail(ks);
      IndicatorOnce(ks[1..], c, v);
    }
  }

  lemma {:induction false} SumOfGroupsCons(countries: seq<string>, vals: seq<int>, ks: seq<string>)
    requires |countries| == |vals| && countries != []
    ensures SumOfGroups(countries, vals, ks)
            == Indicator(ks, countries[0], vals[0]) + SumOfGroups(countries[1..], vals[1..], ks)
  {
    if ks != [] {
      SumOfGroupsCons(countries, vals, ks[1..]);
    }
  }

  lemma {:induction false} SumOfGroupsEmpty(ks: seq<string>)
    ensures SumOfGroups([], [], ks) == 0
  {
    if ks != [] {
      SumOfGroupsEmpty(ks[1..]);
    }
  }

  /**
   * Grouping conserves the total: when every country is one of the distinct
   * keys, the group sums add up to the sum over all rows.
   */
  lemma {:induction false} GroupSumsConserveTotal(countries: seq<string>, vals: seq<int>, ks: seq<string>)
    requires |countries| == |vals|
    requires Distinct(ks) && forall c :: c in countries ==> c in ks
    ensures SumOfGroups(countries, vals, ks) == Sum(vals)
  {
    if countries == [] {
      SumOfGroupsEmpty(ks);
    } else {
      GroupSumsConserveTotal(countries[1..], vals[1..], ks);
      SumOfGroupsCons(countries, vals, ks);
      IndicatorOnce(ks, countries[0], vals[0]);
    }
  }

  /** A name no row carries has an empty group. */
  lemma {:induction false} GroupSumAbsent(countries: seq<string>, vals: seq<int>, c: string)
    requires |countries| == |vals| && c !in countries
    ensures GroupSum(countries, vals, c) == 0
  {
    if countries != [] {
      GroupSumAbsent(countries[1..], vals[1..], c);
    }
  }

  /** The columns of the grouped table: each distinct country but "Date", in sorted order. */
  function GroupKeys(countries: seq<string>): (names: seq<string>)
    ensures StrictlySorted(names) && Distinct(names)
    ensures forall n :: n in names <==> n in countries && n != "Date"
  {
    var keys := SortedSet(countries);
    StrictlySortedDistinctAll(keys);
    PickKept(keys, ["Date"]);
    PickSorted(keys, KeptPositions(keys, ["Date"], 0));
    Pick(keys, KeptPositions(keys, ["Date"], 0))
  }

  /**
   * `groupby('Country').sum()`, transposed so that dates become rows: one
   * column per distinct country, in sorted order, holding its group sums.
   * A country called "Date" is overwritten by `df['Date'] = df.index`.
   */
  function Grouped(countries: seq<string>, counts: seq<seq<Option<int>>>, dates: seq<Date>): (g: Table<int>)
    requires |countries| == |counts| && Rectangular(counts, |dates|) && Distinct(dates)
    ensures g.Valid() && g.dates == dates && StrictlySorted(g.names)
    ensures forall n :: n in g.names <==> n in countries && n != "Date"
    ensures forall n, t :: n in g.names && 0 <= t < |dates| ==>
              g.Column(n)[t] == Some(GroupSum(countries, OnDate(counts, t), n))
  {
    var names := GroupKeys(countries);
    var g := Table(dates, names, seq(|names|, m requires 0 <= m < |names| =>
                     seq(|dates|, t requires 0 <= t < |dates| => Some(GroupSum(countries, OnDate(counts, t), names[m])))));
    GroupedColumns(countries, counts, dates, g);
    g
  }

  lemma GroupedColumns(countries: seq<string>, counts: seq<seq<Option<int>>>, dates: seq<Date>, g: Table<int>)
    requires |countries| == |counts| && Rectangular(counts, |dates|) && Distinct(dates)
    requires g.Valid() && g.dates == dates
    requires forall m, t :: 0 <= m < |g.names| && 0 <= t < |dates| ==>
               g.cols[m][t] == Some(GroupSum(countries, OnDate(counts, t), g.names[m]))
    ensures forall n, t :: n in g.names && 0 <= t < |dates| ==>
              g.Column(n)[t] == Some(GroupSum(countries, OnDate(counts, t), n))
  {
    forall n, t | n in g.names && 0 <= t < |dates|
      ensures g.Column(n)[t] == Some(GroupSum(countries, OnDate(counts, t), n))
    {
      var m := IndexOf(g.names, n);
      assert g.cols[m][t] == Some(GroupSum(countries, OnDate(counts, t), g.names[m]));
    }
  }

  /**
   * `process_data`: drops Lat, Long and Province/State, renames the
   * countries, sums the rows of each country, turns dates into rows, drops
   * the boats and orders the columns Date first, then the sorted countries.
   */
  method ProcessData(raw: RawTable) returns (r: Result<Table<int>>)
    requires raw.Valid()
    ensures r.Ok? <==> "Diamond Princess" in Renamed(raw) && "MS Zaandam" in Renamed(raw)
    ensures r.Err? ==> r.error == MissingLabel("Diamond Princess") || r.error == MissingLabel("MS Zaandam")
    ensures r.Ok? ==> r.value.Valid() && r.value.dates == raw.dates && StrictlySorted(r.value.names)
    ensures r.Ok? ==> forall n :: n in r.value.names <==> n in Renamed(raw) && n !in Boats && n != "Date"
    ensures r.Ok? ==> forall n, t :: n in r.value.names && 0 <= t < |raw.dates| ==>
              r.value.Column(n)[t] == Some(GroupSum(Renamed(raw), OnDate(Counts(raw), t), n))
  {
    // drop(['Lat', 'Long', 'Province/State']) and the Country/Region -> Country rename
    var country := new string[|raw.rows|](i requires 0 <= i < |raw.rows| => raw.rows[i].country);
    var counts := Counts(raw);
    RenameCountries(country);
    assert country[..] == Renamed(raw);
    var grouped := Grouped(country[..], counts, raw.dates);
    var dropped := RemoveBoats(grouped);
    if dropped.Err? {
      return Err(dropped.error);
    }
    var df := dropped.value;
    RemoveBoatsKeeps(grouped);
    // the astype(int) pass changes nothing: every cell is already an exact integer
    var order := Sort(df.names);
    StrictlySortedIsSorted(df.names);
    SortOfSorted(df.names);
    StrictlySortedDistinctAll(df.names);
    df := Permute(df, order);
    r := Ok(df);
  }

  // ---------------------------------------------------------------- active cases

  function GridOf(t: Table<int>): (g: Grid<int>)
    requires t.Valid()
    ensures g.Valid() && g.names == t.names && g.height == |t.dates|
    ensures forall n, i: nat :: n in t.names && i < |t.dates| ==> g.Cell(n, i) == t.Column(n)[i]
  {
    Grid(t.names, |t.dates|, t.cols)
  }

  /** The cell of column n on row i of a case table; missing outside it. */
  function CellOf(t: Table<int>, n: string, i: nat): Option<int>
    requires t.Valid()
  {
    if n in t.names && i < |t.dates| then t.Column(n)[i] else None
  }

  function Minus(x: Option<int>, y: Option<int>): Option<int>
  {
    if x.Some? && y.Some? then Some(x.value - y.value) else None
  }

  /** pandas aligns the columns of both operands: the same labels stay, otherwise their sorted union. */
  function AlignedNames(a: seq<string>, b: seq<string>): (r: seq<string>)
    ensures forall n :: n in r <==> n in a || n in b
    ensures Distinct(a) ==> a == b ==> r == a
    ensures a != b ==> StrictlySorted(r)
  {
    if a == b then a else SortedSet(a + b)
  }

  /**
   * `a -= b` on two frames: aligned on the union of labels and of
   * positions, each cell the difference where both operands have it.
   */
  function Subtract(a: Grid<int>, b: Grid<int>): (r: Grid<int>)
    requires a.Valid() && b.Valid()
    ensures r.Valid()
    ensures forall n :: n in r.names <==> n in a.names || n in b.names
    ensures a.names == b.names ==> r.names == a.names
    ensures r.height == if a.height >= b.height then a.height else b.height
    ensures forall n, i: nat :: r.Cell(n, i) == Minus(a.Cell(n, i), b.Cell(n, i))
  {
    var names := AlignedNames(a.names, b.names);
    var height := if a.height >= b.height then a.height else b.height;
    assert Distinct(names) by {
      if a.names != b.names {
        StrictlySortedDistinctAll(names);
      }
    }
    var r := Grid(names, height, seq(|names|, j requires 0 <= j < |names| =>
                  seq(height, i requires 0 <= i < height => Minus(a.Cell(names[j], i), b.Cell(names[j], i)))));
    assert forall n, i: nat :: r.Cell(n, i) == Minus(a.Cell(n, i), b.Cell(n, i)) by {
      forall n, i: nat ensures r.Cell(n, i) == Minus(a.Cell(n, i), b.Cell(n, i)) {
        if n in names && i < height {
          assert names[IndexOf(names, n)] == n;
        }
      }
    }
    r
  }

  /** The active table: the country columns, then Date, which is missing on rows the confirmed table lacks. */
  datatype ActiveTable = ActiveTable(grid: Grid<int>, dates: seq<Option<Date>>)
  {
    function Header(): seq<string>
    {
      grid.names + ["Date"]
    }
  }

  /**
   * The active-cases arithmetic of `make_cases`: confirmed minus recovered
   * minus dead, then the confirmed table's Date column appended.
   */
  method MakeActive(conf: Table<int>, recov: Table<int>, dead: Table<int>) returns (active: ActiveTable)
    requires conf.Valid() && recov.Valid() && dead.Valid()
    ensures active.grid.Valid()
    ensures forall n :: n in active.grid.names <==> n in conf.names || n in recov.names || n in dead.names
    ensures conf.names == recov.names == dead.names ==> active.grid.names == conf.names
    ensures |active.dates| == active.grid.height
    ensures active.grid.height >= |conf.dates| && active.grid.height >= |recov.dates| && active.grid.height >= |dead.dates|
    ensures active.grid.height == |conf.dates| || active.grid.height == |recov.dates| || active.grid.height == |dead.dates|
    ensures forall i :: 0 <= i < |active.dates| ==>
              active.dates[i] == if i < |conf.dates| then Some(conf.dates[i]) else None
    ensures forall n, i: nat :: active.grid.Cell(n, i) == Minus(Minus(CellOf(conf, n, i), CellOf(recov, n, i)), CellOf(dead, n, i))
  {
    var g := GridOf(conf);
    g := Subtract(g, GridOf(recov));
    g := Subtract(g, GridOf(dead));
    var dates := seq(g.height, i requires 0 <= i < g.height => if i < |conf.dates| then Some(conf.dates[i]) else None);
    active := ActiveTable(g, dates);
    assert forall t: Table<int>, n, i: nat :: t.Valid() ==> GridOf(t).Cell(n, i) == CellOf(t, n, i);
  }

  /**
   * On tables over the same countries and dates with every cell present,
   * each active cell is confirmed minus recovered minus dead, negative
   * results included.
   */
  lemma ActiveIsDifference(conf: Table<int>, recov: Table<int>, dead: Table<int>, active: ActiveTable, n: string, i: nat)
    requires conf.Valid() && recov.Valid() && dead.Valid() && active.grid.Valid()
    requires forall n, i: nat :: active.grid.Cell(n, i) == Minus(Minus(CellOf(conf, n, i), CellOf(recov, n, i)), CellOf(dead, n, i))
    requires n in conf.names && n in recov.names && n in dead.names
    requires i < |conf.dates| && i < |recov.dates| && i < |dead.dates|
    requires conf.Column(n)[i].Some? && recov.Column(n)[i].Some? && dead.Column(n)[i].Some?
    ensures active.grid.Cell(n, i) == Some(conf.Column(n)[i].value - recov.Column(n)[i].value - dead.Column(n)[i].value)
  {
  }
}
