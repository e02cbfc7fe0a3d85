/**
 * The per-country snapshot: for each metric table, the entries of its last
 * row keyed by country, and the metrics outer-merged on Country.
 */
module CountryStats {
  import opened Wrappers
  import opened Order
  import opened Frames

  function Min(a: nat, b: nat): (m: nat)
    ensures m <= a && m <= b && (m == a || m == b)
  {
    if a < b then a else b
  }

  /** The date of the last row of a non-empty table. */
  function LastDate<V>(t: Table<V>): Date
    requires |t.dates| > 0
  {
    t.dates[|t.dates| - 1]
  }

  /**
   * `df.tail(1).drop('Date', axis=1).transpose().reset_index()`, columns
   * Country and the metric: one row per country column, in column order,
   * holding that column's last entry.
   */
  function LastRow<V>(t: Table<V>): (f: Frame<V>)
    requires t.Valid() && |t.dates| > 0
    ensures f.Valid() && f.width == 1 && UniqueKeys(f) && Keys(f.rows) == t.names
  {
    var f := Frame(1, seq(|t.names|, j requires 0 <= j < |t.names| => Row(t.names[j], [t.cols[j][|t.dates| - 1]])));
    assert Keys(f.rows) == t.names;
    f
  }

  /** A country of the table gets its entry on the last date; any other name gets a gap. */
  lemma LastRowLookup<V>(t: Table<V>, c: string)
    requires t.Valid() && |t.dates| > 0
    ensures Lookup(LastRow(t), c) == [if c in t.names then t.CellAt(c, LastDate(t)) else None]
  {
    var f := LastRow(t);
    MatchesUnique(f, c);
    if c in t.names {
      var j := IndexOf(t.names, c);
      assert IndexOf(Keys(f.rows), c) == j;
      IndexOfDistinct(t.dates, |t.dates| - 1);
    } else {
      assert Nones<V>(1) == [None];
    }
  }

  predicate AllNonEmpty<V>(tables: seq<Table<V>>)
  {
    forall i :: 0 <= i < |tables| ==> |tables[i].dates| > 0
  }

  /** The last-row frame of every table. */
  function LastRows<V>(tables: seq<Table<V>>): (fs: seq<Frame<V>>)
    requires (forall i :: 0 <= i < |tables| ==> tables[i].Valid()) && AllNonEmpty(tables)
    ensures |fs| == |tables| && AllValid(fs) && AllUnique(fs) && TotalWidth(fs) == |tables|
    ensures forall i :: 0 <= i < |tables| ==> fs[i] == LastRow(tables[i])
  {
    var fs := seq(|tables|, i requires 0 <= i < |tables| => LastRow(tables[i]));
    UnitWidths(fs);
    fs
  }

  lemma {:induction false} UnitWidths<V>(fs: seq<Frame<V>>)
    requires forall j :: 0 <= j < |fs| ==> fs[j].width == 1
    ensures TotalWidth(fs) == |fs|
  {
    if fs != [] {
      UnitWidths(fs[..|fs| - 1]);
    }
  }

  /** The merged snapshot of the given tables. */
  function StatsFrame<V>(tables: seq<Table<V>>): (f: Frame<V>)
    requires |tables| > 0 && (forall i :: 0 <= i < |tables| ==> tables[i].Valid()) && AllNonEmpty(tables)
    ensures f.Valid() && f.width == |tables|
  {
    OuterJoinAll(LastRows(tables))
  }

  /** Entry i of a country's row: its last value in table i, a gap when table i lacks the country. */
  function LastCells<V>(tables: seq<Table<V>>, c: string): (v: seq<Option<V>>)
    requires (forall i :: 0 <= i < |tables| ==> tables[i].Valid()) && AllNonEmpty(tables)
    ensures |v| == |tables|
  {
    seq(|tables|, i requires 0 <= i < |tables| => if c in tables[i].names then tables[i].CellAt(c, LastDate(tables[i])) else None)
  }

  /**
   * The snapshot has one row per country of any table (never Date), in
   * sorted order once two tables are merged, and each row lists the last
   * entry of that country in every table, a gap exactly where a table lacks it.
   */
  lemma StatsFrameRows<V>(tables: seq<Table<V>>, c: string)
    requires |tables| > 0 && (forall i :: 0 <= i < |tables| ==> tables[i].Valid()) && AllNonEmpty(tables)
    ensures var f := StatsFrame(tables);
      && UniqueKeys(f)
      && (|tables| > 1 ==> StrictlySorted(Keys(f.rows)))
      && (c in Keys(f.rows) <==> exists i :: 0 <= i < |tables| && c in tables[i].names)
      && "Date" !in Keys(f.rows)
      && Lookup(f, c) == LastCells(tables, c)
  {
    var fs := LastRows(tables);
    OuterJoinAllUnique(fs);
    forall i | 0 <= i < |fs| ensures Lookup(fs[i], c) == [LastCells(tables, c)[i]] {
      LastRowLookup(tables[i], c);
    }
    LookupAllSingles(fs, c, LastCells(tables, c));
    AllKeysIn(fs, c);
    AllKeysIn(fs, "Date");
    if exists i :: 0 <= i < |tables| && c in tables[i].names {
      var i :| 0 <= i < |tables| && c in tables[i].names;
      assert c in Keys(fs[i].rows);
    }
  }

  /**
   * `get_country_stats`: pairs each table with its metric name (zip stops
   * at the shorter list), builds the last-row frame of each, and
   * outer-merges them on Country. An empty table makes the two-label
   * column assignment fail; no pairs at all leave nothing to reduce.
   */
  method GetCountryStats<V>(tables: seq<Table<V>>, names: seq<string>) returns (r: Result<Labelled<V>>)
    requires forall i :: 0 <= i < |tables| ==> tables[i].Valid()
    ensures var k := Min(|tables|, |names|);
      r.Ok? <==> k > 0 && AllNonEmpty(tables[..k])
    ensures var k := Min(|tables|, |names|);
      r.Err? ==> r.error == if AllNonEmpty(tables[..k]) then EmptyReduce else LengthMismatch
    ensures var k := Min(|tables|, |names|);
      r.Ok? ==> && r.value.header == ["Country"] + names[..k]
                && r.value.frame == StatsFrame(tables[..k])
  {
    var k := Min(|tables|, |names|);
    var stats: seq<Frame<V>> := [];
    for i := 0 to k
      invariant AllNonEmpty(tables[..i])
      invariant stats == LastRows(tables[..i])
    {
      if |tables[i].dates| == 0 {
        assert !AllNonEmpty(tables[..k]) by {
          assert tables[..k][i] == tables[i];
        }
        return Err(LengthMismatch);
      }
      assert tables[..i + 1] == tables[..i] + [tables[i]];
      stats := stats + [LastRow(tables[i])];
    }
    if stats == [] {
      return Err(EmptyReduce);
    }
    r := Ok(Labelled(["Country"] + names[..k], OuterJoinAll(stats)));
  }

  /** A row of `country_stats.csv`. */
  datatype StatsRow = StatsRow(country: string, confirmed: Option<int>, recovered: Option<int>,
                               dead: Option<int>, active: Option<int>, mortality: Option<real>)
}
