/**
 * Shared helpers of the feature scripts: the boat names, the country-name
 * aliases of the case files, dropping the boat columns and the per-country
 * time series built by outer-merging one column of several case tables.
 */
module Utils {
  import opened Wrappers
  import opened Order
  import opened Frames

  /** Cases recorded on cruise ships rather than in a country. */
  const Boats: seq<string> := ["Diamond Princess", "MS Zaandam"]

  /** The same renamings as one lookup table. */
  const Aliases: map<string, string> := map[
    "Taiwan*" := "Taiwan",
    "Korea, South" := "Korea",
    "North Macedonia" := "Macedonia",
    "Cabo Verde" := "Cape Verde",
    "Congo (Brazzaville)" := "Congo",
    "Congo (Kinshasa)" := "Congo"
  ]

  /** One `apply(lambda x: to if x == from else x)` on a single name. */
  function Replace(x: string, from: string, to: string): string
  {
    if x == from then to else x
  }

  /** The name a case-file country ends up with after the six passes, in their order. */
  function RenameCountry(x: string): string
  {
    var x1 := Replace(x, "Taiwan*", "Taiwan");
    var x2 := Replace(x1, "Korea, South", "Korea");
    var x3 := Replace(x2, "North Macedonia", "Macedonia");
    var x4 := Replace(x3, "Cabo Verde", "Cape Verde");
    var x5 := Replace(x4, "Congo (Brazzaville)", "Congo");
    Replace(x5, "Congo (Kinshasa)", "Congo")
  }

  /** The six passes in sequence act as a single lookup in the alias table. */
  lemma RenameCountryIsLookup(x: string)
    ensures RenameCountry(x) == if x in Aliases then Aliases[x] else x
  {
  }

  /** Exactly the six alias keys are changed. */
  lemma RenameCountryChanges(x: string)
    ensures RenameCountry(x) != x <==> x in Aliases
    ensures x in Aliases ==> RenameCountry(x) in {"Taiwan", "Korea", "Macedonia", "Cape Verde", "Congo"}
  {
    RenameCountryIsLookup(x);
  }

  /** No target name is itself renamed, so renaming twice is renaming once. */
  lemma RenameCountryIdempotent(x: string)
    ensures RenameCountry(RenameCountry(x)) == RenameCountry(x)
  {
    RenameCountryIsLookup(x);
    RenameCountryIsLookup(RenameCountry(x));
  }

  /** The two Congos merge into one name. */
  lemma RenameCountryNotInjective()
    ensures exists x, y :: x != y && RenameCountry(x) == RenameCountry(y)
  {
    RenameCountryIsLookup("Congo (Brazzaville)");
    RenameCountryIsLookup("Congo (Kinshasa)");
    assert RenameCountry("Congo (Brazzaville)") == RenameCountry("Congo (Kinshasa)");
  }

  /** One vectorised `apply` pass over the Country column, in place. */
  method ReplaceAll(country: array<string>, from: string, to: string)
    modifies country
    ensures forall i :: 0 <= i < country.Length ==> country[i] == Replace(old(country[i]), from, to)
  {
    for i := 0 to country.Length
      invariant forall k :: 0 <= k < i ==> country[k] == Replace(old(country[k]), from, to)
      invariant forall k :: i <= k < country.Length ==> country[k] == old(country[k])
    {
      country[i] := Replace(country[i], from, to);
    }
  }

  /**
   * `rename_countries`: overwrites the Country column six times. Only that
   * column changes; its length and order are kept.
   */
  method RenameCountries(country: array<string>)
    modifies country
    ensures forall i :: 0 <= i < country.Length ==> country[i] == RenameCountry(old(country[i]))
  {
    ReplaceAll(country, "Taiwan*", "Taiwan");
    ReplaceAll(country, "Korea, South", "Korea");
    ReplaceAll(country, "North Macedonia", "Macedonia");
    ReplaceAll(country, "Cabo Verde", "Cape Verde");
    ReplaceAll(country, "Congo (Brazzaville)", "Congo");
    ReplaceAll(country, "Congo (Kinshasa)", "Congo");
  }

  /** `remove_boats`: drops both boat columns, a KeyError when either is absent. */
  function RemoveBoats<V>(t: Table<V>): (r: Result<Table<V>>)
    requires t.Valid()
    ensures r.Ok? <==> "Diamond Princess" in t.names && "MS Zaandam" in t.names
    ensures r.Err? ==> r.error == MissingLabel("Diamond Princess") || r.error == MissingLabel("MS Zaandam")
    ensures r.Ok? ==> r.value.Valid() && r.value.dates == t.dates
  {
    assert forall l :: l in Boats <==> l == "Diamond Princess" || l == "MS Zaandam";
    DropLabels(t, Boats)
  }

  /** The columns left are the non-boat ones, in the same order... each with its data unchanged. */
  lemma RemoveBoatsKeeps<V>(t: Table<V>)
    requires t.Valid() && RemoveBoats(t).Ok?
    ensures var u := RemoveBoats(t).value;
      && (forall n :: n in u.names <==> n in t.names && n !in Boats)
      && (forall n :: n in u.names ==> u.Column(n) == t.Column(n))
  {
    DropLabelsKeeps(t, Boats);
  }

  /** The cells of one country column on the given dates, missing where the table lacks a date. */
  function CellsOn<V>(t: Table<V>, country: string, dates: seq<Date>): (c: seq<Option<V>>)
    requires t.Valid() && country in t.names
    ensures |c| == |dates|
    ensures forall i :: 0 <= i < |dates| ==> c[i] == t.CellAt(country, dates[i])
  {
    seq(|dates|, i requires 0 <= i < |dates| => t.CellAt(country, dates[i]))
  }

  predicate AllTablesValid<V>(tables: seq<Table<V>>)
  {
    forall i :: 0 <= i < |tables| ==> tables[i].Valid()
  }

  predicate HasCountry<V>(tables: seq<Table<V>>, country: string)
  {
    forall i :: 0 <= i < |tables| ==> country in tables[i].names
  }

  /** The Date-and-country frame of each table. */
  function SeriesFrames<V>(tables: seq<Table<V>>, country: string): (fs: seq<Frame<V>>)
    requires AllTablesValid(tables) && HasCountry(tables, country)
    ensures |fs| == |tables| && AllValid(fs) && AllUnique(fs)
    ensures forall i :: 0 <= i < |tables| ==> fs[i] == SeriesFrame(tables[i], country) && fs[i].width == 1
  {
    seq(|tables|, i requires 0 <= i < |tables| => SeriesFrame(tables[i], country))
  }

  /** The country's cell on date d in each table. */
  function CellsAt<V>(tables: seq<Table<V>>, country: string, d: Date): (c: seq<Option<V>>)
    requires AllTablesValid(tables) && HasCountry(tables, country)
    ensures |c| == |tables|
    ensures forall j :: 0 <= j < |tables| ==> c[j] == tables[j].CellAt(country, d)
  {
    seq(|tables|, j requires 0 <= j < |tables| => tables[j].CellAt(country, d))
  }

  lemma {:induction false} SeriesWidth<V>(tables: seq<Table<V>>, country: string)
    requires AllTablesValid(tables) && HasCountry(tables, country)
    ensures TotalWidth(SeriesFrames(tables, country)) == |tables|
  {
    if tables != [] {
      var init := tables[..|tables| - 1];
      SeriesWidth(init, country);
      assert SeriesFrames(tables, country)[..|tables| - 1] == SeriesFrames(init, country);
    }
  }

  /** Looking a date up in every single-column frame gives the country's cell in every table. */
  lemma LookupAllSeries<V>(tables: seq<Table<V>>, country: string, d: Date)
    requires AllTablesValid(tables) && HasCountry(tables, country)
    ensures LookupAll(SeriesFrames(tables, country), d) == CellsAt(tables, country, d)
  {
    LookupAllSingles(SeriesFrames(tables, country), d, CellsAt(tables, country, d));
  }

  /** The dates of the merged series: one of the tables has each of them. */
  lemma SeriesKeys<V>(tables: seq<Table<V>>, country: string, d: Date)
    requires AllTablesValid(tables) && HasCountry(tables, country)
    ensures d in AllKeys(SeriesFrames(tables, country)) <==> exists i :: 0 <= i < |tables| && d in tables[i].dates
  {
    var fs := SeriesFrames(tables, country);
    AllKeysIn(fs, d);
    if exists i :: 0 <= i < |tables| && d in tables[i].dates {
      var i :| 0 <= i < |tables| && d in tables[i].dates;
      assert d in Keys(fs[i].rows);
    }
  }

  /**
   * What the series of one country is: a frame with one column per table,
   * one row per date found in any table (sorted when several were merged),
   * where each cell is the backfilled column of the country in that table.
   */
  ghost predicate IsCountrySeries<V>(tables: seq<Table<V>>, country: string, f: Frame<V>)
    requires AllTablesValid(tables) && HasCountry(tables, country)
  {
    && f.Valid() && f.width == |tables| && UniqueKeys(f)
    && (|tables| > 1 ==> StrictlySorted(Keys(f.rows)))
    && (forall d :: d in Keys(f.rows) <==> exists i :: 0 <= i < |tables| && d in tables[i].dates)
    && (forall i, j :: 0 <= i < |f.rows| && 0 <= j < |tables| ==>
          f.rows[i].vals[j] == NextPresent(CellsOn(tables[j], country, Keys(f.rows)), i))
  }

  /** The merged series: its dates are those of any table and column j holds the country's cells in table j. */
  lemma MergedShape<V>(tables: seq<Table<V>>, country: string)
    requires |tables| > 0 && AllTablesValid(tables) && HasCountry(tables, country)
    ensures var m := OuterJoinAll(SeriesFrames(tables, country));
      && m.width == |tables| && UniqueKeys(m)
      && (|tables| > 1 ==> StrictlySorted(Keys(m.rows)))
      && (forall d :: d in Keys(m.rows) <==> exists i :: 0 <= i < |tables| && d in tables[i].dates)
  {
    var fs := SeriesFrames(tables, country);
    SeriesWidth(tables, country);
    OuterJoinAllUnique(fs);
    forall d ensures d in Keys(OuterJoinAll(fs).rows) <==> exists i :: 0 <= i < |tables| && d in tables[i].dates {
      SeriesKeys(tables, country, d);
    }
  }

  lemma MergedColumns<V>(tables: seq<Table<V>>, country: string)
    requires |tables| > 0 && AllTablesValid(tables) && HasCountry(tables, country)
    ensures var m := OuterJoinAll(SeriesFrames(tables, country));
      m.width == |tables| &&
      forall j :: 0 <= j < |tables| ==> m.Column(j) == CellsOn(tables[j], country, Keys(m.rows))
  {
    var fs := SeriesFrames(tables, country);
    var m := OuterJoinAll(fs);
    SeriesWidth(tables, country);
    OuterJoinAllUnique(fs);
    forall j | 0 <= j < |tables| ensures m.Column(j) == CellsOn(tables[j], country, Keys(m.rows)) {
      forall i | 0 <= i < |m.rows| ensures m.Column(j)[i] == tables[j].CellAt(country, m.rows[i].key) {
        LookupAt(m, i);
        LookupAllSeries(tables, country, m.rows[i].key);
      }
    }
  }

  /** The frame `get_country_ts` builds: the outer merge of the country's series, backfilled. */
  function CountrySeries<V>(tables: seq<Table<V>>, country: string): (f: Frame<V>)
    requires |tables| > 0 && AllTablesValid(tables) && HasCountry(tables, country)
    ensures f.Valid() && f.width == |tables|
  {
    SeriesWidth(tables, country);
    BackfillFrame(OuterJoinAll(SeriesFrames(tables, country)))
  }

  lemma MergedSeries<V>(tables: seq<Table<V>>, country: string)
    requires |tables| > 0 && AllTablesValid(tables) && HasCountry(tables, country)
    ensures IsCountrySeries(tables, country, CountrySeries(tables, country))
  {
    MergedShape(tables, country);
    MergedColumns(tables, country);
  }

  /**
   * `get_country_ts`: one country's column from each table, outer-merged on
   * Date, relabelled Date followed by `columns`, then backfilled.
   */
  method GetCountryTs<V>(country: string, tables: seq<Table<V>>, columns: seq<string>) returns (r: Result<Labelled<V>>)
    requires AllTablesValid(tables)
    ensures r.Ok? <==> HasCountry(tables, country) && |tables| > 0 && |columns| == |tables|
    ensures !HasCountry(tables, country) ==> r == Err(MissingLabel(country))
    ensures HasCountry(tables, country) && tables == [] ==> r == Err(EmptyReduce)
    ensures HasCountry(tables, country) && tables != [] && |columns| != |tables| ==> r == Err(LengthMismatch)
    ensures r.Ok? ==> r.value.header == ["Date"] + columns
    ensures r.Ok? ==> r.value.frame == CountrySeries(tables, country)
    ensures r.Ok? ==> IsCountrySeries(tables, country, r.value.frame)
  {
    var ctry: seq<Frame<V>> := [];
    for i := 0 to |tables|
      invariant forall k :: 0 <= k < i ==> country in tables[k].names
      invariant |ctry| == i && forall k :: 0 <= k < i ==> ctry[k] == SeriesFrame(tables[k], country)
    {
      if country !in tables[i].names {
        return Err(MissingLabel(country));
      }
      ctry := ctry + [SeriesFrame(tables[i], country)];
    }
    assert ctry == SeriesFrames(tables, country);
    if ctry == [] {
      return Err(EmptyReduce);
    }
    if 1 + |columns| != 1 + |tables| {
      return Err(LengthMismatch);
    }
    MergedSeries(tables, country);
    var merged := OuterJoinAll(ctry);
    r := Ok(Labelled(["Date"] + columns, BackfillFrame(merged)));
  }
}
