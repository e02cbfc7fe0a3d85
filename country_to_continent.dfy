/**
 * The country-to-continent table: the coordinates left-merged with the
 * continents on Country, then every row with a missing field dropped.
 */
module CountryToContinent {
  import opened Wrappers
  import opened Order
  import opened Frames
  import opened Coordinates
  import opened Continents

  /** A row of the left merge: the continent fields are missing when no continent row matched. */
  datatype MergedRow = MergedRow(country: string, lat: Option<real>, long: Option<real>,
                                 continent: Option<string>, code: Option<string>)

  /** A row that survives `dropna()`: every field present. */
  datatype Placed = Placed(country: string, lat: real, long: real, continent: string, code: string)

  /** The continent rows of one country, in their order, duplicates kept. */
  function MatchesOf(ctry: seq<ContinentRow>, c: string): (m: seq<ContinentRow>)
    ensures Subsequence(m, ctry)
    ensures forall y :: multiset(m)[y] == if y.country == c then multiset(ctry)[y] else 0
    ensures forall y :: y in m <==> y in ctry && y.country == c
  {
    Where(ctry, (y: ContinentRow) => y.country == c)
  }

  /** The number of merged rows a coordinates row gives: one per match, and one when none matches. */
  function Width(x: Coord, ctry: seq<ContinentRow>): nat
  {
    var k := |MatchesOf(ctry, x.country)|;
    if k == 0 then 1 else k
  }

  /** The merged rows of one coordinates row: one per matching continent row, or one with gaps. */
  function MergeOne(x: Coord, ctry: seq<ContinentRow>): (r: seq<MergedRow>)
    ensures |r| == Width(x, ctry)
    ensures forall m :: m in r ==> m.country == x.country && m.lat == x.lat && m.long == x.long
  {
    var ms := MatchesOf(ctry, x.country);
    if ms == [] then [MergedRow(x.country, x.lat, x.long, None, None)]
    else seq(|ms|, i requires 0 <= i < |ms| => MergedRow(x.country, x.lat, x.long, Some(ms[i].continent), ms[i].code))
  }

  /** `pd.merge(coord, ctry, how='left', on='Country')`: the rows of each coordinates row in turn. */
  function LeftMerge(coord: seq<Coord>, ctry: seq<ContinentRow>): (r: seq<MergedRow>)
  {
    if coord == [] then [] else MergeOne(coord[0], ctry) + LeftMerge(coord[1..], ctry)
  }

  /** A placed row as the merged row it came from. */
  function AsMerged(p: Placed): MergedRow
  {
    MergedRow(p.country, Some(p.lat), Some(p.long), Some(p.continent), Some(p.code))
  }

  /** A merged row without a gap. */
  predicate Complete(m: MergedRow)
  {
    m.lat.Some? && m.long.Some? && m.continent.Some? && m.code.Some?
  }

  /**
   * `dropna()`: the rows without a missing field, in order and each as often
   * as it occurs; read back as merged rows they are the gap-free rows.
   */
  function DropNa(rows: seq<MergedRow>): (r: seq<Placed>)
    ensures Map(r, AsMerged) == Where(rows, Complete)
    ensures forall p :: p in r <==> AsMerged(p) in rows
  {
    if rows == [] then []
    else
      var m := rows[0];
      var rest := DropNa(rows[1..]);
      assert rows == [m] + rows[1..];
      if Complete(m) then
        var p := Placed(m.country, m.lat.value, m.long.value, m.continent.value, m.code.value);
        assert AsMerged(p) == m;
        assert Where(rows, Complete) == [m] + Where(rows[1..], Complete);
        assert Map([p], AsMerged) == [m];
        MapConcat([p], rest, AsMerged);
        [p] + rest
      else
        assert Where(rows, Complete) == Where(rows[1..], Complete);
        assert forall q :: Complete(AsMerged(q));
        rest
  }

  /** `get_ctry_to_cont`. */
  function GetCtryToCont(ctry: seq<ContinentRow>, coord: seq<Coord>): (r: seq<Placed>)
  {
    DropNa(LeftMerge(coord, ctry))
  }

  /** A complete merged row comes from one coordinates row and a continents row of its country. */
  lemma MergeOneComplete(x: Coord, ctry: seq<ContinentRow>, p: Placed)
    ensures MergedRow(p.country, Some(p.lat), Some(p.long), Some(p.continent), Some(p.code)) in MergeOne(x, ctry)
        <==> x == Coord(p.country, Some(p.lat), Some(p.long)) && ContinentRow(p.continent, Some(p.code), p.country) in ctry
  {
    var m := MergedRow(p.country, Some(p.lat), Some(p.long), Some(p.continent), Some(p.code));
    var y := ContinentRow(p.continent, Some(p.code), p.country);
    var ms := MatchesOf(ctry, x.country);
    var r := MergeOne(x, ctry);
    if x == Coord(p.country, Some(p.lat), Some(p.long)) && y in ctry {
      assert y in ms;
      var i :| 0 <= i < |ms| && ms[i] == y;
      assert r[i] == m;
    }
    if m in r {
      var i :| 0 <= i < |r| && r[i] == m;
      assert ms != [] && ms[i] in ms;
    }
  }

  /** The complete rows of the left merge are the matching pairs. */
  lemma {:induction false} LeftMergeComplete(coord: seq<Coord>, ctry: seq<ContinentRow>, p: Placed)
    ensures MergedRow(p.country, Some(p.lat), Some(p.long), Some(p.continent), Some(p.code)) in LeftMerge(coord, ctry)
        <==> Coord(p.country, Some(p.lat), Some(p.long)) in coord && ContinentRow(p.continent, Some(p.code), p.country) in ctry
  {
    if coord != [] {
      LeftMergeComplete(coord[1..], ctry, p);
      MergeOneComplete(coord[0], ctry, p);
      assert coord == [coord[0]] + coord[1..];
    }
  }

  /**
   * A row of the result pairs a coordinates row and a continents row of the
   * same country, every field present; every such pair gives a row. A
   * country without a continent row, or with a gap, is dropped.
   */
  lemma CtryToContRows(ctry: seq<ContinentRow>, coord: seq<Coord>, p: Placed)
    ensures p in GetCtryToCont(ctry, coord) <==>
              Coord(p.country, Some(p.lat), Some(p.long)) in coord
              && ContinentRow(p.continent, Some(p.code), p.country) in ctry
  {
    LeftMergeComplete(coord, ctry, p);
  }

  /** The Country column of the result. */
  function PlacedCountries(r: seq<Placed>): seq<string>
  {
    Map(r, (p: Placed) => p.country)
  }

  /** The Country column of the merge. */
  function MergedCountries(r: seq<MergedRow>): seq<string>
  {
    Map(r, (m: MergedRow) => m.country)
  }

  /** k copies of c. */
  function Copies(c: string, k: nat): seq<string>
  {
    if k == 0 then [] else [c] + Copies(c, k - 1)
  }

  /** A sequence of one value repeated is that many copies of it. */
  lemma {:induction false} AllCopies(s: seq<string>, c: string)
    requires forall z :: z in s ==> z == c
    ensures s == Copies(c, |s|)
  {
    if s != [] {
      assert s == [s[0]] + s[1..];
      assert s[0] in s;
      assert forall z :: z in s[1..] ==> z in s;
      AllCopies(s[1..], c);
    }
  }

  /** A run of one or more copies of c, in front of t, still holds c followed by any subsequence of t. */
  lemma SubsequenceCopies(c: string, k: nat, s: seq<string>, t: seq<string>)
    requires k >= 1 && Subsequence(s, t)
    ensures Subsequence([c] + s, Copies(c, k) + t)
  {
    SubsequenceSkipPrefix(s, Copies(c, k - 1), t);
    SubsequenceCons(c, s, Copies(c, k - 1) + t);
    assert Copies(c, k) + t == [c] + (Copies(c, k - 1) + t);
  }

  /** Each coordinates country in turn, as many times as its row has merged rows. */
  function Spread(coord: seq<Coord>, ctry: seq<ContinentRow>): seq<string>
  {
    if coord == [] then []
    else Copies(coord[0].country, Width(coord[0], ctry)) + Spread(coord[1..], ctry)
  }

  lemma MergedCountriesConcat(a: seq<MergedRow>, b: seq<MergedRow>)
    ensures MergedCountries(a + b) == MergedCountries(a) + MergedCountries(b)
  {
    MapConcat(a, b, (m: MergedRow) => m.country);
  }

  lemma LeftMergeCons(coord: seq<Coord>, ctry: seq<ContinentRow>)
    requires coord != []
    ensures MergedCountries(LeftMerge(coord, ctry))
         == MergedCountries(MergeOne(coord[0], ctry)) + MergedCountries(LeftMerge(coord[1..], ctry))
  {
    MergedCountriesConcat(MergeOne(coord[0], ctry), LeftMerge(coord[1..], ctry));
  }

  /** The Country column of one coordinates row's merged rows: its country, Width times. */
  lemma MergeOneCountries(x: Coord, ctry: seq<ContinentRow>)
    ensures MergedCountries(MergeOne(x, ctry)) == Copies(x.country, Width(x, ctry))
  {
    var one := MergeOne(x, ctry);
    var cs := MergedCountries(one);
    forall z | z in cs ensures z == x.country {
      var i :| 0 <= i < |cs| && cs[i] == z;
      assert one[i] in one;
    }
    AllCopies(cs, x.country);
  }

  /**
   * The Country column of the left merge is the coordinates' Country column
   * with each entry repeated once per matching continent row (once when none
   * matches).
   */
  lemma {:induction false} LeftMergeCountries(coord: seq<Coord>, ctry: seq<ContinentRow>)
    ensures MergedCountries(LeftMerge(coord, ctry)) == Spread(coord, ctry)
  {
    if coord != [] {
      LeftMergeCountries(coord[1..], ctry);
      MergeOneCountries(coord[0], ctry);
      LeftMergeCons(coord, ctry);
    }
  }

  lemma CountriesOfCons(coord: seq<Coord>)
    requires coord != []
    ensures CountriesOf(coord) == [coord[0].country] + CountriesOf(coord[1..])
  {
  }

  /** Every coordinates row survives the left merge, in order. */
  lemma {:induction false} SpreadKeepsCountries(coord: seq<Coord>, ctry: seq<ContinentRow>)
    ensures Subsequence(CountriesOf(coord), Spread(coord, ctry))
  {
    if coord == [] {
      assert CountriesOf(coord) == [];
    } else {
      var t := coord[1..];
      var c := coord[0].country;
      SpreadKeepsCountries(t, ctry);
      SubsequenceCopies(c, Width(coord[0], ctry), CountriesOf(t), Spread(t, ctry));
      CountriesOfCons(coord);
    }
  }

  /** Every coordinates row has a merged row, in the coordinates' order. */
  lemma LeftMergeKeepsRows(coord: seq<Coord>, ctry: seq<ContinentRow>)
    ensures Subsequence(CountriesOf(coord), MergedCountries(LeftMerge(coord, ctry)))
  {
    LeftMergeCountries(coord, ctry);
    SpreadKeepsCountries(coord, ctry);
  }

  /** The left merge keeps the order of the coordinates: countries sorted there stay sorted. */
  lemma {:induction false} LeftMergeOrder(coord: seq<Coord>, ctry: seq<ContinentRow>)
    requires StrictlySorted(CountriesOf(coord))
    ensures Sorted(MergedCountries(LeftMerge(coord, ctry)))
    ensures forall z :: z in MergedCountries(LeftMerge(coord, ctry)) ==> z in CountriesOf(coord)
  {
    if coord != [] {
      var t := coord[1..];
      var cs := CountriesOf(coord);
      assert CountriesOf(t) == cs[1..];
      LeftMergeOrder(t, ctry);
      var head := MergedCountries(MergeOne(coord[0], ctry));
      var rest := MergedCountries(LeftMerge(t, ctry));
      LeftMergeCons(coord, ctry);
      assert forall z :: z in head ==> z == cs[0];
      StrictlySortedIsSorted(cs);
      SortedFirst(cs);
      RunThenSorted(head, rest, cs[0]);
    }
  }

  /**
   * `dropna()` keeps its rows in order: the Country column of the result is
   * a subsequence of the merge's, and sorted when that one is.
   */
  lemma DropNaOrder(rows: seq<MergedRow>)
    ensures Subsequence(PlacedCountries(DropNa(rows)), MergedCountries(rows))
    ensures Sorted(MergedCountries(rows)) ==> Sorted(PlacedCountries(DropNa(rows)))
  {
    var out := DropNa(rows);
    var back := Map(out, AsMerged);
    var f := (m: MergedRow) => m.country;
    MapSubsequence(back, rows, f);
    assert Map(back, f) == PlacedCountries(out);
    assert Map(rows, f) == MergedCountries(rows);
    if Sorted(MergedCountries(rows)) {
      SubsequenceSorted(PlacedCountries(out), MergedCountries(rows));
    }
  }

  /** With the coordinates sorted by country, as `get_coords` leaves them, the result is sorted by country too. */
  lemma CtryToContOrder(ctry: seq<ContinentRow>, coord: seq<Coord>)
    requires StrictlySorted(CountriesOf(coord))
    ensures Sorted(PlacedCountries(GetCtryToCont(ctry, coord)))
  {
    LeftMergeOrder(coord, ctry);
    DropNaOrder(LeftMerge(coord, ctry));
  }
}
