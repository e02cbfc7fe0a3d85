/**
 * Country coordinates: the raw confirmed file without the boat rows, the
 * country names reconciled, and Lat and Long averaged per country, sorted
 * by country.
 */
module Coordinates {
  import opened Wrappers
  import opened Order
  import opened Frames
  import opened Utils
  import opened Cases

  /** One row of the coordinates table. */
  datatype Coord = Coord(country: string, lat: Option<real>, long: Option<real>)

  /** `df.loc[~df['Country'].isin(BOATS)]`: the rows of countries, in file order, duplicates kept. */
  function NotBoats(rows: seq<RawRow>): (r: seq<RawRow>)
    ensures Subsequence(r, rows)
    ensures forall x :: multiset(r)[x] == if x.country !in Boats then multiset(rows)[x] else 0
    ensures forall x :: x in r <==> x in rows && x.country !in Boats
  {
    Where(rows, (x: RawRow) => x.country !in Boats)
  }

  /** The group of c: the rows whose reconciled country is c, in order, each as often as it occurs. */
  function GroupOf(rows: seq<RawRow>, c: string): (g: seq<RawRow>)
    ensures Subsequence(g, rows)
    ensures forall x :: multiset(g)[x] == if RenameCountry(x.country) == c then multiset(rows)[x] else 0
    ensures forall x :: x in g <==> x in rows && RenameCountry(x.country) == c
  {
    Where(rows, (x: RawRow) => RenameCountry(x.country) == c)
  }

  function Lats(rows: seq<RawRow>): (v: seq<Option<real>>)
    ensures |v| == |rows| && forall i :: 0 <= i < |rows| ==> v[i] == rows[i].lat
  {
    seq(|rows|, i requires 0 <= i < |rows| => rows[i].lat)
  }

  function Longs(rows: seq<RawRow>): (v: seq<Option<real>>)
    ensures |v| == |rows| && forall i :: 0 <= i < |rows| ==> v[i] == rows[i].long
  {
    seq(|rows|, i requires 0 <= i < |rows| => rows[i].long)
  }

  /** The number of present values. */
  function PresentCount(xs: seq<Option<real>>): (n: nat)
    ensures n <= |xs|
  {
    if xs == [] then 0 else (if xs[0].Some? then 1 else 0) + PresentCount(xs[1..])
  }

  /** The sum of the present values. */
  function PresentSum(xs: seq<Option<real>>): real
  {
    if xs == [] then 0.0 else (if xs[0].Some? then xs[0].value else 0.0) + PresentSum(xs[1..])
  }

  /** pandas `mean()`: the average of the present values, missing when there are none. */
  function Mean(xs: seq<Option<real>>): (m: Option<real>)
    ensures m.Some? <==> PresentCount(xs) > 0
    ensures m.Some? ==> m.value * PresentCount(xs) as real == PresentSum(xs)
  {
    var n := PresentCount(xs);
    if n == 0 then None else Some(PresentSum(xs) / n as real)
  }

  /** The mean is missing exactly when every value is. */
  lemma {:induction false} MeanMissing(xs: seq<Option<real>>)
    ensures Mean(xs).None? <==> forall i :: 0 <= i < |xs| ==> xs[i].None?
  {
    if xs != [] {
      MeanMissing(xs[1..]);
      assert forall i :: 1 <= i < |xs| ==> xs[i] == xs[1..][i - 1];
    }
  }

  /** Present values between lo and hi sum to between n*lo and n*hi, for n of them. */
  lemma {:induction false} SumWithin(xs: seq<Option<real>>, lo: real, hi: real)
    requires forall i :: 0 <= i < |xs| && xs[i].Some? ==> lo <= xs[i].value <= hi
    ensures Times(PresentCount(xs), lo) <= PresentSum(xs) <= Times(PresentCount(xs), hi)
  {
    if xs != [] {
      var t := xs[1..];
      forall i | 0 <= i < |t| && t[i].Some? ensures lo <= t[i].value <= hi {
        assert t[i] == xs[i + 1];
      }
      SumWithin(t, lo, hi);
    }
  }

  /** n copies of x added up. */
  function Times(n: nat, x: real): real
  {
    if n == 0 then 0.0 else x + Times(n - 1, x)
  }

  lemma {:induction false} TimesIsProduct(n: nat, x: real)
    ensures Times(n, x) == n as real * x
  {
    if n > 0 {
      TimesIsProduct(n - 1, x);
      assert n as real * x == (n - 1) as real * x + x;
    }
  }

  /** A sum between n*lo and n*hi, divided by n, lies between lo and hi. */
  lemma AverageWithin(s: real, n: nat, lo: real, hi: real)
    requires n > 0 && Times(n, lo) <= s <= Times(n, hi)
    ensures lo <= s / n as real <= hi
  {
    TimesIsProduct(n, lo);
    TimesIsProduct(n, hi);
    var r := n as real;
    var m := s / r;
    assert (m - lo) * r == s - r * lo;
    assert (hi - m) * r == r * hi - s;
  }

  /** The mean of values between lo and hi lies between lo and hi. */
  lemma MeanWithin(xs: seq<Option<real>>, lo: real, hi: real)
    requires forall i :: 0 <= i < |xs| && xs[i].Some? ==> lo <= xs[i].value <= hi
    ensures Mean(xs).Some? ==> lo <= Mean(xs).value <= hi
  {
    SumWithin(xs, lo, hi);
    if PresentCount(xs) > 0 {
      AverageWithin(PresentSum(xs), PresentCount(xs), lo, hi);
    }
  }

  /** The country names of the table: the reconciled names of the non-boat rows, sorted, once each. */
  function CoordKeys(raw: RawTable): (keys: seq<string>)
    ensures StrictlySorted(keys)
    ensures forall c :: c in keys <==> exists x :: x in raw.rows && x.country !in Boats && RenameCountry(x.country) == c
    ensures forall i :: 0 <= i < |keys| ==> keys[i] !in Boats
  {
    var kept := NotBoats(raw.rows);
    var keys := SortedSet(RenamedRows(kept));
    forall i | 0 <= i < |keys| ensures keys[i] !in Boats {
      assert keys[i] in RenamedRows(kept);
      var x :| x in kept && RenameCountry(x.country) == keys[i];
      RenameCountryIsLookup(x.country);
    }
    keys
  }

  /**
   * `get_coords`: rows of boats dropped by their raw name, names reconciled,
   * grouped by country (sorted, as groupby sorts) with the mean Lat and Long
   * of each group; the index is renumbered, and the `transpose()` whose
   * result is discarded changes nothing.
   */
  function GetCoords(raw: RawTable): (r: seq<Coord>)
    ensures StrictlySorted(CountriesOf(r))
    ensures forall c :: c in CountriesOf(r) <==>
              exists x :: x in raw.rows && x.country !in Boats && RenameCountry(x.country) == c
    ensures forall i :: 0 <= i < |r| ==> r[i].country !in Boats
    ensures forall i :: 0 <= i < |r| ==> var g := GroupOf(NotBoats(raw.rows), r[i].country);
              r[i].lat == Mean(Lats(g)) && r[i].long == Mean(Longs(g))
  {
    var keys := CoordKeys(raw);
    var r := seq(|keys|, i requires 0 <= i < |keys| =>
      var g := GroupOf(NotBoats(raw.rows), keys[i]);
      Coord(keys[i], Mean(Lats(g)), Mean(Longs(g))));
    assert CountriesOf(r) == keys;
    r
  }

  /** The Country column. */
  function CountriesOf(r: seq<Coord>): seq<string>
  {
    Map(r, (x: Coord) => x.country)
  }

  /** The reconciled names of the rows. */
  function RenamedRows(rows: seq<RawRow>): (cs: seq<string>)
    ensures forall c :: c in cs <==> exists x :: x in rows && RenameCountry(x.country) == c
  {
    var cs := seq(|rows|, i requires 0 <= i < |rows| => RenameCountry(rows[i].country));
    assert forall i :: 0 <= i < |rows| ==> cs[i] == RenameCountry(rows[i].country);
    cs
  }
}
