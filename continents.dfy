/**
 * The continents table: one row per country of the country-code file with
 * its three-letter code and continent, the country names brought in line
 * with the case files, and Antarctica left out.
 */
module Continents {
  import opened Wrappers
  import opened Frames
  import opened Utils

  /** One row of the country-code file. */
  datatype RawCountry = RawCountry(continentName: string, continentCode: Option<string>, countryName: string,
                                   twoLetterCode: Option<string>, threeLetterCode: Option<string>,
                                   countryNumber: Option<int>)

  /** One row of the continents table: Continent, Country Code and Country. */
  datatype ContinentRow = ContinentRow(continent: string, code: Option<string>, country: string)

  /** Whether ", " starts at position i of s. */
  predicate SeparatorAt(s: string, i: nat)
  {
    i + 2 <= |s| && s[i] == ',' && s[i + 1] == ' '
  }

  /** `x.split(", ")[0]`: the part of the name before the first ", ", or all of it. */
  function BeforeComma(s: string): (r: string)
    ensures |r| <= |s| && r == s[..|r|]
    ensures forall i :: 0 <= i < |r| ==> !SeparatorAt(s, i)
    ensures |r| == |s| || SeparatorAt(s, |r|)
  {
    if |s| < 2 then s
    else if s[0] == ',' && s[1] == ' ' then []
    else
      var rest := BeforeComma(s[1..]);
      assert forall i :: 1 <= i < |s| ==> SeparatorAt(s, i) == SeparatorAt(s[1..], i - 1);
      [s[0]] + rest
  }

  /** The short name holds no ", " at all. */
  lemma NoSeparatorLeft(s: string, i: nat)
    ensures !SeparatorAt(BeforeComma(s), i)
  {
    var r := BeforeComma(s);
    if i + 2 <= |r| {
      assert r[i] == s[..|r|][i] == s[i];
      assert r[i + 1] == s[..|r|][i + 1] == s[i + 1];
      assert !SeparatorAt(s, i);
    }
  }

  /** Cutting the name twice cuts it once. */
  lemma BeforeCommaIdempotent(s: string)
    ensures BeforeComma(BeforeComma(s)) == BeforeComma(s)
  {
    var r := BeforeComma(s);
    forall i | 0 <= i < |r| ensures !SeparatorAt(r, i) {
      NoSeparatorLeft(s, i);
    }
    NoCut(r);
  }

  /** A name without ", " is kept whole. */
  lemma {:induction false} NoCut(s: string)
    requires forall i :: 0 <= i < |s| ==> !SeparatorAt(s, i)
    ensures BeforeComma(s) == s
  {
    if |s| >= 2 {
      assert !SeparatorAt(s, 0);
      forall i | 0 <= i < |s[1..]| ensures !SeparatorAt(s[1..], i) {
        assert SeparatorAt(s[1..], i) ==> SeparatorAt(s, i + 1);
      }
      NoCut(s[1..]);
    }
  }

  /** The row after the drops, the new Country column and the relabelling. */
  function Reshape(x: RawCountry): (r: ContinentRow)
  {
    ContinentRow(x.continentName, x.threeLetterCode, BeforeComma(x.countryName))
  }

  /** The Country column. */
  function CountryNames(rows: seq<ContinentRow>): seq<string>
  {
    Map(rows, (x: ContinentRow) => x.country)
  }

  /** `drop_duplicates(subset=['Country'])`: the first row of each country, in order. */
  function KeepFirst(rows: seq<ContinentRow>): (out: seq<ContinentRow>)
    ensures Distinct(CountryNames(out))
    ensures forall c :: c in CountryNames(out) <==> c in CountryNames(rows)
    ensures forall i :: 0 <= i < |out| ==> out[i] == rows[IndexOf(CountryNames(rows), out[i].country)]
  {
    if rows == [] then []
    else
      var n := |rows| - 1;
      var init := rows[..n];
      var kept := KeepFirst(init);
      assert CountryNames(rows) == CountryNames(init) + [rows[n].country];
      FirstInPrefix(CountryNames(init), rows[n].country);
      if rows[n].country in CountryNames(kept) then kept
      else
        var out := kept + [rows[n]];
        assert CountryNames(out) == CountryNames(kept) + [rows[n].country];
        out
  }

  /** The first position of x is found in any prefix that holds x, and past it when not. */
  lemma FirstInPrefix(s: seq<string>, x: string)
    ensures forall y :: y in s ==> IndexOf(s + [x], y) == IndexOf(s, y)
    ensures x !in s ==> IndexOf(s + [x], x) == |s|
  {
    forall y | y in s ensures IndexOf(s + [x], y) == IndexOf(s, y) {
      var k := IndexOf(s, y);
      assert (s + [x])[k] == y;
      var k' := IndexOf(s + [x], y);
      assert k' <= k;
      assert s[k'] == y;
    }
  }

  /** `get_continents`. */
  function GetContinents(raw: seq<RawCountry>): (r: seq<ContinentRow>)
  {
    KeepFirst(seq(|raw|, i requires 0 <= i < |raw| => Reshape(raw[i])))
  }

  /** After de-duplication every country occurs once, each row being the first raw row with that short name. */
  lemma GetContinentsRows(raw: seq<RawCountry>)
    ensures var r := GetContinents(raw);
      && Distinct(CountryNames(r))
      && (forall c :: c in CountryNames(r) <==> exists i :: 0 <= i < |raw| && BeforeComma(raw[i].countryName) == c)
      && forall j :: 0 <= j < |r| ==>
           exists i :: (0 <= i < |raw| && r[j] == Reshape(raw[i])
                        && forall k :: 0 <= k < i ==> BeforeComma(raw[k].countryName) != r[j].country)
  {
    var rows := seq(|raw|, i requires 0 <= i < |raw| => Reshape(raw[i]));
    var r := GetContinents(raw);
    var names := CountryNames(rows);
    forall c ensures c in CountryNames(r) <==> exists i :: 0 <= i < |raw| && BeforeComma(raw[i].countryName) == c {
      if c in names {
        var i := IndexOf(names, c);
        assert BeforeComma(raw[i].countryName) == c;
      }
      if exists i :: 0 <= i < |raw| && BeforeComma(raw[i].countryName) == c {
        var i :| 0 <= i < |raw| && BeforeComma(raw[i].countryName) == c;
        assert names[i] == c;
      }
    }
    forall j | 0 <= j < |r| ensures exists i :: (0 <= i < |raw| && r[j] == Reshape(raw[i])
                && forall k :: 0 <= k < i ==> BeforeComma(raw[k].countryName) != r[j].country) {
      var i := IndexOf(names, r[j].country);
      assert forall k :: 0 <= k < i ==> names[k] == BeforeComma(raw[k].countryName);
    }
  }

  /** The fifteen renamings of `switch_country_names`, in their order. */
  const Swaps: seq<(string, string)> := [
    ("Russian Federation", "Russia"),
    ("Slovakia (Slovak Republic)", "Slovakia"),
    ("Kyrgyz Republic", "Kyrgyzstan"),
    ("Syrian Arab Republic", "Syria"),
    ("Libyan Arab Jamahiriya", "Libya"),
    ("Korea, South", "Korea"),
    ("Brunei Darussalam", "Brunei"),
    ("Cabo Verde", "Cape Verde"),
    ("Holy See (Vatican City State)", "Holy See"),
    ("United States of America", "US"),
    ("United Kingdom of Great Britain & Northern Ireland", "United Kingdom"),
    ("Lao People's Democratic Republic", "Laos"),
    ("Myanmar", "Burma"),
    ("Czech Republic", "Czechia"),
    ("Swaziland", "Eswatini")
  ]

  /** A name after the given renamings, applied one after another. */
  function Switched(x: string, swaps: seq<(string, string)>): string
  {
    if swaps == [] then x
    else
      var last := swaps[|swaps| - 1];
      Replace(Switched(x, swaps[..|swaps| - 1]), last.0, last.1)
  }

  /** No renaming produces a name that another renaming would change again. */
  predicate NoChains(swaps: seq<(string, string)>)
  {
    forall i, j :: 0 <= i < |swaps| && 0 <= j < |swaps| ==> swaps[i].1 != swaps[j].0
  }

  /** No name is the source of two renamings. */
  predicate DistinctSources(swaps: seq<(string, string)>)
  {
    forall i, j :: 0 <= i < j < |swaps| ==> swaps[i].0 != swaps[j].0
  }

  /**
   * Without chains and with distinct sources, applying the renamings in turn
   * is one lookup: a source name becomes its target, any other name stays.
   */
  lemma {:induction false} SwitchedIsLookup(x: string, swaps: seq<(string, string)>)
    requires NoChains(swaps) && DistinctSources(swaps)
    ensures (forall i :: 0 <= i < |swaps| ==> swaps[i].0 != x) ==> Switched(x, swaps) == x
    ensures forall i :: 0 <= i < |swaps| && swaps[i].0 == x ==> Switched(x, swaps) == swaps[i].1
  {
    if swaps != [] {
      var n := |swaps| - 1;
      var init := swaps[..n];
      assert forall i :: 0 <= i < n ==> init[i] == swaps[i];
      SwitchedIsLookup(x, init);
      var y := Switched(x, init);
      if exists i :: 0 <= i < n && swaps[i].0 == x {
        var i :| 0 <= i < n && swaps[i].0 == x;
        assert y == swaps[i].1 && y != swaps[n].0;
      }
    }
  }

  /** The fifteen renamings have no chains. */
  lemma SwapsAreLookup()
    ensures NoChains(Swaps) && DistinctSources(Swaps)
  {
    SwapsNoChains();
    SwapsDistinctSources();
  }

  lemma SwapsNoChains()
    ensures NoChains(Swaps)
  {
    FirstTargetsNotSources();
    LastTargetsNotSources();
  }

  lemma FirstTargetsNotSources()
    ensures forall i, j :: 0 <= i < 8 && 0 <= j < |Swaps| ==> Swaps[i].1 != Swaps[j].0
  {
  }

  lemma LastTargetsNotSources()
    ensures forall i, j :: 8 <= i < |Swaps| && 0 <= j < |Swaps| ==> Swaps[i].1 != Swaps[j].0
  {
  }

  lemma SwapsDistinctSources()
    ensures DistinctSources(Swaps)
  {
  }

  /** `switch_country_names` renames a country at most once: renaming again changes nothing. */
  lemma SwitchIdempotent(x: string)
    ensures Switched(Switched(x, Swaps), Swaps) == Switched(x, Swaps)
  {
    SwapsAreLookup();
    SwitchedIsLookup(x, Swaps);
    SwitchedIsLookup(Switched(x, Swaps), Swaps);
  }

  /** The cut at ", " already turns "Korea, South" into "Korea", so that renaming never applies. */
  lemma KoreaPairNeverMatches(raw: RawCountry)
    ensures Reshape(raw).country != "Korea, South"
  {
    NoSeparatorLeft(raw.countryName, 5);
  }

  /** One `df.loc[df['Country'] == from, 'Country'] = to`, in place. */
  method SwitchOne(rows: array<ContinentRow>, from: string, to: string)
    modifies rows
    ensures forall i :: 0 <= i < rows.Length ==> rows[i] == old(rows[i]).(country := Replace(old(rows[i]).country, from, to))
  {
    for i := 0 to rows.Length
      invariant forall k :: 0 <= k < i ==> rows[k] == old(rows[k]).(country := Replace(old(rows[k]).country, from, to))
      invariant forall k :: i <= k < rows.Length ==> rows[k] == old(rows[k])
    {
      rows[i] := rows[i].(country := Replace(rows[i].country, from, to));
    }
  }

  /** `switch_country_names`: the fifteen renamings in turn; only the Country column changes. */
  method SwitchCountryNames(rows: array<ContinentRow>)
    modifies rows
    ensures forall i :: 0 <= i < rows.Length ==> rows[i] == old(rows[i]).(country := Switched(old(rows[i]).country, Swaps))
  {
    for p := 0 to |Swaps|
      invariant forall i :: 0 <= i < rows.Length ==>
        rows[i] == old(rows[i]).(country := Switched(old(rows[i]).country, Swaps[..p]))
    {
      assert Swaps[..p + 1][..p] == Swaps[..p];
      SwitchOne(rows, Swaps[p].0, Swaps[p].1);
    }
    assert Swaps[..|Swaps|] == Swaps;
  }

  /** `df[df['Continent'] != 'Antarctica']`: the other rows, in order, duplicates kept. */
  function WithoutAntarctica(rows: seq<ContinentRow>): (r: seq<ContinentRow>)
    ensures Subsequence(r, rows)
    ensures forall x :: multiset(r)[x] == if x.continent != "Antarctica" then multiset(rows)[x] else 0
    ensures forall x :: x in r <==> x in rows && x.continent != "Antarctica"
  {
    Where(rows, (x: ContinentRow) => x.continent != "Antarctica")
  }

  /** The whole table as a value: reshaped, de-duplicated, renamed, Antarctica dropped. */
  function Continents(raw: seq<RawCountry>): seq<ContinentRow>
  {
    var rows := GetContinents(raw);
    WithoutAntarctica(seq(|rows|, i requires 0 <= i < |rows| => rows[i].(country := Switched(rows[i].country, Swaps))))
  }

  /** `make_continents` without the file reading and writing. */
  method MakeContinents(raw: seq<RawCountry>) returns (r: seq<ContinentRow>)
    ensures r == Continents(raw)
    ensures forall i :: 0 <= i < |r| ==> r[i].continent != "Antarctica"
  {
    var rows := GetContinents(raw);
    var a := new ContinentRow[|rows|](i requires 0 <= i < |rows| => rows[i]);
    SwitchCountryNames(a);
    assert a[..] == seq(|rows|, i requires 0 <= i < |rows| => rows[i].(country := Switched(rows[i].country, Swaps)));
    r := WithoutAntarctica(a[..]);
  }
}
