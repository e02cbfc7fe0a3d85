/**
 * The pandas primitives the pipeline is built from, as explicit functions:
 * case tables, key-based merges (outer and inner, with pandas' handling of
 * repeated keys), backward fill and `head`.
 */
module Frames {
  import opened Wrappers
  import opened Order

  /** Dates are opaque keys; their string order is the order pandas sorts them in. */
  type Date = string

  predicate Distinct<T(==)>(s: seq<T>)
  {
    forall i, j :: 0 <= i < j < |s| ==> s[i] != s[j]
  }

  function IndexOf<T(==)>(s: seq<T>, x: T): (k: nat)
    requires x in s
    ensures k < |s| && s[k] == x
    ensures forall i :: 0 <= i < k ==> s[i] != x
  {
    if s[0] == x then 0 else 1 + IndexOf(s[1..], x)
  }

  lemma IndexOfDistinct<T>(s: seq<T>, k: nat)
    requires Distinct(s) && k < |s|
    ensures IndexOf(s, s[k]) == k
  {
  }

  /**
   * A case table as it is read back from CSV: the Date column and one column
   * per country, stored column by column. read_csv renames repeated header
   * labels, so the country names are distinct and none of them is "Date".
   */
  datatype Table<V> = Table(dates: seq<Date>, names: seq<string>, cols: seq<seq<Option<V>>>)
  {
    predicate Valid()
    {
      && |cols| == |names|
      && (forall j :: 0 <= j < |cols| ==> |cols[j]| == |dates|)
      && Distinct(names)
      && Distinct(dates)
      && "Date" !in names
    }

    /** The column labelled `name` (`df[name]`). */
    function Column(name: string): (c: seq<Option<V>>)
      requires Valid() && name in names
      ensures |c| == |dates|
    {
      cols[IndexOf(names, name)]
    }

    /** The entry of column `name` on date `d`, missing when the date is absent. */
    function CellAt(name: string, d: Date): Option<V>
      requires Valid() && name in names
    {
      if d in dates then Column(name)[IndexOf(dates, d)] else None
    }
  }

  /** The positions from i on whose label is not in labels, in increasing order. */
  function KeptPositions(names: seq<string>, labels: seq<string>, i: nat): (r: seq<nat>)
    requires i <= |names|
    ensures forall m :: 0 <= m < |r| ==> i <= r[m] < |names| && names[r[m]] !in labels
    ensures forall m, m' :: 0 <= m < m' < |r| ==> r[m] < r[m']
    ensures forall j :: i <= j < |names| && names[j] !in labels ==> j in r
    decreases |names| - i
  {
    if i == |names| then []
    else (if names[i] !in labels then [i] else []) + KeptPositions(names, labels, i + 1)
  }

  /** The first of labels that is not among names. */
  function FirstMissing(labels: seq<string>, names: seq<string>): (r: Option<string>)
    ensures r.None? <==> forall l :: l in labels ==> l in names
    ensures r.Some? ==> r.value in labels && r.value !in names
  {
    if labels == [] then None
    else if labels[0] !in names then Some(labels[0])
    else FirstMissing(labels[1..], names)
  }

  /** The entries of s at the given positions. */
  function Pick<T>(s: seq<T>, pos: seq<nat>): (r: seq<T>)
    requires forall m :: 0 <= m < |pos| ==> pos[m] < |s|
    ensures |r| == |pos| && forall m :: 0 <= m < |pos| ==> r[m] == s[pos[m]]
  {
    seq(|pos|, m requires 0 <= m < |pos| => s[pos[m]])
  }

  lemma PickKeptNames(names: seq<string>, labels: seq<string>, n: string)
    ensures n in Pick(names, KeptPositions(names, labels, 0)) <==> n in names && n !in labels
  {
    var pos := KeptPositions(names, labels, 0);
    var u := Pick(names, pos);
    if n in names && n !in labels {
      var j := IndexOf(names, n);
      assert j in pos;
      var m :| 0 <= m < |pos| && pos[m] == j;
      assert u[m] == names[j];
    }
  }

  lemma PickKeptDistinct(names: seq<string>, labels: seq<string>)
    requires Distinct(names)
    ensures Distinct(Pick(names, KeptPositions(names, labels, 0)))
  {
    var pos := KeptPositions(names, labels, 0);
    var u := Pick(names, pos);
    forall m, m' | 0 <= m < m' < |pos| ensures u[m] != u[m'] {
      assert pos[m] < pos[m'];
    }
  }

  lemma PickKept(names: seq<string>, labels: seq<string>)
    requires Distinct(names)
    ensures var pos := KeptPositions(names, labels, 0);
      && Distinct(Pick(names, pos))
      && (forall n :: n in Pick(names, pos) <==> n in names && n !in labels)
      && (forall m :: 0 <= m < |pos| ==> IndexOf(names, Pick(names, pos)[m]) == pos[m])
  {
    var pos := KeptPositions(names, labels, 0);
    var u := Pick(names, pos);
    PickKeptDistinct(names, labels);
    forall n ensures n in u <==> n in names && n !in labels {
      PickKeptNames(names, labels, n);
    }
    forall m | 0 <= m < |pos| ensures IndexOf(names, u[m]) == pos[m] {
      IndexOfDistinct(names, pos[m]);
    }
  }

  /** Picking at increasing positions keeps a strict order. */
  lemma PickSorted(s: seq<string>, pos: seq<nat>)
    requires StrictlySorted(s)
    requires forall m :: 0 <= m < |pos| ==> pos[m] < |s|
    requires forall m, m' :: 0 <= m < m' < |pos| ==> pos[m] < pos[m']
    ensures StrictlySorted(Pick(s, pos))
  {
    var u := Pick(s, pos);
    forall m, m' | 0 <= m < m' < |pos| ensures Lt(u[m], u[m']) {
      assert pos[m] < pos[m'];
    }
  }

  /** `df.drop(labels, axis=1)`: a KeyError when a label is not a column. */
  function DropLabels<V>(t: Table<V>, labels: seq<string>): (r: Result<Table<V>>)
    requires t.Valid()
    ensures r.Ok? <==> forall l :: l in labels ==> l in t.names
    ensures r.Err? ==> exists l :: l in labels && l !in t.names && r.error == MissingLabel(l)
    ensures r.Ok? ==> r.value.Valid() && r.value.dates == t.dates
  {
    var missing := FirstMissing(labels, t.names);
    if missing.Some? then Err(MissingLabel(missing.value))
    else
      var pos := KeptPositions(t.names, labels, 0);
      PickKeptDistinct(t.names, labels);
      Ok(Table(t.dates, Pick(t.names, pos), Pick(t.cols, pos)))
  }

  /** The columns left by a drop are the others, each unchanged. */
  lemma DropLabelsKeeps<V>(t: Table<V>, labels: seq<string>)
    requires t.Valid() && DropLabels(t, labels).Ok?
    ensures var u := DropLabels(t, labels).value;
      && (forall n :: n in u.names <==> n in t.names && n !in labels)
      && (forall n :: n in u.names ==> u.Column(n) == t.Column(n))
      && (StrictlySorted(t.names) ==> StrictlySorted(u.names))
  {
    var u := DropLabels(t, labels).value;
    var pos := KeptPositions(t.names, labels, 0);
    PickKept(t.names, labels);
    if StrictlySorted(t.names) {
      PickSorted(t.names, pos);
    }
    assert u.names == Pick(t.names, pos) && u.cols == Pick(t.cols, pos);
    forall n | n in u.names ensures u.Column(n) == t.Column(n) {
      var m := IndexOf(u.names, n);
      assert IndexOf(t.names, n) == pos[m];
    }
  }

  /** `df[cols]` where cols names every column exactly once: the columns in the new order. */
  function Permute<V>(t: Table<V>, order: seq<string>): (r: Table<V>)
    requires t.Valid() && Distinct(order) && forall n :: n in order <==> n in t.names
    ensures r.Valid() && r.dates == t.dates && r.names == order
    ensures forall n :: n in order ==> r.Column(n) == t.Column(n)
  {
    var r := Table(t.dates, order, seq(|order|, m requires 0 <= m < |order| => t.Column(order[m])));
    assert forall n :: n in order ==> r.Column(n) == t.Column(n) by {
      forall n | n in order ensures r.Column(n) == t.Column(n) {
        assert r.cols[IndexOf(order, n)] == t.Column(order[IndexOf(order, n)]);
      }
    }
    r
  }

  /** A frame together with its column header, key column first. */
  datatype Labelled<V> = Labelled(header: seq<string>, frame: Frame<V>)

  /** A table without its Date column, as `drop(['Date'], axis=1)` leaves it. */
  datatype Grid<V> = Grid(names: seq<string>, height: nat, cols: seq<seq<Option<V>>>)
  {
    predicate Valid()
    {
      && |cols| == |names| && Distinct(names)
      && forall j :: 0 <= j < |cols| ==> |cols[j]| == height
    }

    /** The cell of column n on row i; missing outside the grid. */
    function Cell(n: string, i: nat): Option<V>
      requires Valid()
    {
      if n in names && i < height then cols[IndexOf(names, n)][i] else None
    }
  }

  /** One row of a key-indexed frame: the join key and the other columns. */
  datatype Row<V> = Row(key: string, vals: seq<Option<V>>)

  /** A frame with one key column and `width` value columns, row by row. */
  datatype Frame<V> = Frame(width: nat, rows: seq<Row<V>>)
  {
    predicate Valid()
    {
      forall i :: 0 <= i < |rows| ==> |rows[i].vals| == width
    }

    /** Value column j, top to bottom. */
    function Column(j: nat): (c: seq<Option<V>>)
      requires Valid() && j < width
      ensures |c| == |rows|
    {
      seq(|rows|, i requires 0 <= i < |rows| => rows[i].vals[j])
    }
  }

  function Keys<V>(rows: seq<Row<V>>): (ks: seq<string>)
    ensures |ks| == |rows|
    ensures forall i :: 0 <= i < |rows| ==> ks[i] == rows[i].key
  {
    seq(|rows|, i requires 0 <= i < |rows| => rows[i].key)
  }

  lemma KeysConcat<V>(x: seq<Row<V>>, y: seq<Row<V>>)
    ensures Keys(x + y) == Keys(x) + Keys(y)
  {
  }

  lemma ValidConcat<V>(w: nat, x: seq<Row<V>>, y: seq<Row<V>>)
    requires Frame(w, x).Valid() && Frame(w, y).Valid()
    ensures Frame(w, x + y).Valid()
  {
    forall i | 0 <= i < |x + y| ensures |(x + y)[i].vals| == w {
      if i >= |x| {
        assert (x + y)[i] == y[i - |x|];
      }
    }
  }

  predicate UniqueKeys<V>(f: Frame<V>)
  {
    Distinct(Keys(f.rows))
  }

  function Nones<V>(n: nat): (s: seq<Option<V>>)
    ensures |s| == n
    ensures forall i :: 0 <= i < n ==> s[i] == None
  {
    seq(n, i => None)
  }

  lemma NonesSplit<V>(m: nat, n: nat)
    ensures Nones<V>(m) + Nones<V>(n) == Nones<V>(m + n)
  {
  }

  /** The rows whose key is k, in frame order. */
  function Matches<V>(rows: seq<Row<V>>, k: string): (m: seq<Row<V>>)
    ensures forall i :: 0 <= i < |m| ==> m[i] in rows && m[i].key == k
    ensures m == [] <==> k !in Keys(rows)
  {
    if rows == [] then []
    else
      assert Keys(rows) == [rows[0].key] + Keys(rows[1..]);
      (if rows[0].key == k then [rows[0]] else []) + Matches(rows[1..], k)
  }

  lemma MatchesWidth<V>(f: Frame<V>, k: string)
    requires f.Valid()
    ensures forall i :: 0 <= i < |Matches(f.rows, k)| ==> |Matches(f.rows, k)[i].vals| == f.width
  {
    var m := Matches(f.rows, k);
    forall i | 0 <= i < |m| ensures |m[i].vals| == f.width {
      var j :| 0 <= j < |f.rows| && f.rows[j] == m[i];
    }
  }

  lemma DistinctTail<T>(s: seq<T>)
    requires Distinct(s) && s != []
    ensures Distinct(s[1..]) && s[0] !in s[1..]
  {
    forall a | 0 <= a < |s[1..]| ensures s[1..][a] != s[0] {
      assert s[1..][a] == s[a + 1];
    }
  }

  lemma StrictlySortedDistinctAll(s: seq<string>)
    requires StrictlySorted(s)
    ensures Distinct(s)
  {
    forall i, j | 0 <= i < j < |s| ensures s[i] != s[j] {
      StrictlySortedDistinct(s, i, j);
    }
  }

  lemma DistinctCons<T>(x: T, s: seq<T>)
    requires Distinct(s) && x !in s
    ensures Distinct([x] + s)
  {
    forall a, b | 0 <= a < b < |[x] + s| ensures ([x] + s)[a] != ([x] + s)[b] {
      assert ([x] + s)[b] == s[b - 1];
    }
  }

  lemma {:induction false} MatchesSingle<V>(rows: seq<Row<V>>, i: nat)
    requires Distinct(Keys(rows)) && i < |rows|
    ensures Matches(rows, rows[i].key) == [rows[i]]
  {
    var ks := Keys(rows);
    var t := rows[1..];
    assert Keys(t) == ks[1..];
    DistinctTail(ks);
    if i == 0 {
      assert Matches(t, rows[0].key) == [];
    } else {
      assert ks[0] != ks[i];
      MatchesSingle(t, i - 1);
      assert t[i - 1] == rows[i];
    }
  }

  /** The values of the row with key k in a frame with distinct keys; all missing if absent. */
  function Lookup<V>(f: Frame<V>, k: string): (v: seq<Option<V>>)
    requires f.Valid()
    ensures |v| == f.width
  {
    Find(f.rows, k, f.width)
  }

  /** The values of the first row with key k, or w missing values. */
  function Find<V>(rows: seq<Row<V>>, k: string, w: nat): (v: seq<Option<V>>)
    requires forall i :: 0 <= i < |rows| ==> |rows[i].vals| == w
    ensures |v| == w
  {
    if rows == [] then Nones(w) else if rows[0].key == k then rows[0].vals else Find(rows[1..], k, w)
  }

  /** Lookup takes the first of the matching rows. */
  lemma {:induction false} FindFirstMatch<V>(rows: seq<Row<V>>, k: string, w: nat)
    requires forall i :: 0 <= i < |rows| ==> |rows[i].vals| == w
    ensures Find(rows, k, w) == if Matches(rows, k) == [] then Nones(w) else Matches(rows, k)[0].vals
  {
    if rows != [] && rows[0].key != k {
      FindFirstMatch(rows[1..], k, w);
    }
  }

  lemma LookupFirstMatch<V>(f: Frame<V>, k: string)
    requires f.Valid()
    ensures Lookup(f, k) == if Matches(f.rows, k) == [] then Nones(f.width) else Matches(f.rows, k)[0].vals
  {
    FindFirstMatch(f.rows, k, f.width);
  }

  lemma LookupAt<V>(f: Frame<V>, i: nat)
    requires f.Valid() && UniqueKeys(f) && i < |f.rows|
    ensures Lookup(f, f.rows[i].key) == f.rows[i].vals
  {
    MatchesSingle(f.rows, i);
    LookupFirstMatch(f, f.rows[i].key);
  }

  lemma LookupKey<V>(f: Frame<V>, k: string)
    requires f.Valid() && UniqueKeys(f) && k in Keys(f.rows)
    ensures Lookup(f, k) == f.rows[IndexOf(Keys(f.rows), k)].vals
  {
    LookupAt(f, IndexOf(Keys(f.rows), k));
  }

  // ---------------------------------------------------------------- outer merge

  function PadRight<V>(rs: seq<Row<V>>, w: nat): (r: seq<Row<V>>)
    ensures |r| == |rs|
    ensures forall i :: 0 <= i < |rs| ==> r[i] == Row(rs[i].key, rs[i].vals + Nones(w))
  {
    seq(|rs|, i requires 0 <= i < |rs| => Row(rs[i].key, rs[i].vals + Nones(w)))
  }

  function PadLeft<V>(w: nat, rs: seq<Row<V>>): (r: seq<Row<V>>)
    ensures |r| == |rs|
    ensures forall i :: 0 <= i < |rs| ==> r[i] == Row(rs[i].key, Nones(w) + rs[i].vals)
  {
    seq(|rs|, i requires 0 <= i < |rs| => Row(rs[i].key, Nones(w) + rs[i].vals))
  }

  /** Every left row joined with every right row, left order first. */
  function Product<V>(ls: seq<Row<V>>, rs: seq<Row<V>>): (r: seq<Row<V>>)
  {
    if ls == [] then []
    else seq(|rs|, i requires 0 <= i < |rs| => Row(ls[0].key, ls[0].vals + rs[i].vals)) + Product(ls[1..], rs)
  }

  lemma {:induction false} ProductShape<V>(ls: seq<Row<V>>, rs: seq<Row<V>>, k: string, wa: nat, wb: nat)
    requires forall i :: 0 <= i < |ls| ==> ls[i].key == k && |ls[i].vals| == wa
    requires forall i :: 0 <= i < |rs| ==> |rs[i].vals| == wb
    ensures Frame(wa + wb, Product(ls, rs)).Valid()
    ensures forall i :: 0 <= i < |Product(ls, rs)| ==> Product(ls, rs)[i].key == k
    ensures |Product(ls, rs)| > 0 <==> ls != [] && rs != []
  {
    if ls != [] {
      ProductShape(ls[1..], rs, k, wa, wb);
      var head := seq(|rs|, i requires 0 <= i < |rs| => Row(ls[0].key, ls[0].vals + rs[i].vals));
      assert Product(ls, rs) == head + Product(ls[1..], rs);
      ValidConcat(wa + wb, head, Product(ls[1..], rs));
    }
  }

  /** The rows an outer merge produces for key k. */
  function OuterRowsFor<V>(a: Frame<V>, b: Frame<V>, k: string): seq<Row<V>>
  {
    var la := Matches(a.rows, k);
    var lb := Matches(b.rows, k);
    if la == [] then PadLeft(a.width, lb)
    else if lb == [] then PadRight(la, b.width)
    else Product(la, lb)
  }

  lemma OuterRowsForShape<V>(a: Frame<V>, b: Frame<V>, k: string)
    requires a.Valid() && b.Valid()
    ensures Frame(a.width + b.width, OuterRowsFor(a, b, k)).Valid()
    ensures forall k' :: k' in Keys(OuterRowsFor(a, b, k)) <==> k' == k && (k in Keys(a.rows) || k in Keys(b.rows))
  {
    var la := Matches(a.rows, k);
    var lb := Matches(b.rows, k);
    MatchesWidth(a, k);
    MatchesWidth(b, k);
    var r := OuterRowsFor(a, b, k);
    if la != [] && lb != [] {
      ProductShape(la, lb, k, a.width, b.width);
    }
    assert forall i :: 0 <= i < |r| ==> r[i].key == k;
    if la != [] || lb != [] {
      assert |r| > 0;
      assert Keys(r)[0] == k;
    }
  }

  function OuterRowsFrom<V>(a: Frame<V>, b: Frame<V>, ks: seq<string>): seq<Row<V>>
  {
    if ks == [] then [] else OuterRowsFor(a, b, ks[0]) + OuterRowsFrom(a, b, ks[1..])
  }

  lemma {:induction false} OuterRowsFromShape<V>(a: Frame<V>, b: Frame<V>, ks: seq<string>)
    requires a.Valid() && b.Valid()
    ensures Frame(a.width + b.width, OuterRowsFrom(a, b, ks)).Valid()
    ensures forall k :: k in Keys(OuterRowsFrom(a, b, ks)) <==>
              k in ks && (k in Keys(a.rows) || k in Keys(b.rows))
  {
    if ks != [] {
      OuterRowsFromShape(a, b, ks[1..]);
      OuterRowsForShape(a, b, ks[0]);
      KeysConcat(OuterRowsFor(a, b, ks[0]), OuterRowsFrom(a, b, ks[1..]));
      ValidConcat(a.width + b.width, OuterRowsFor(a, b, ks[0]), OuterRowsFrom(a, b, ks[1..]));
    }
  }

  /** `pd.merge(a, b, on=key, how='outer')`: the keys of both, sorted. */
  function OuterJoin<V>(a: Frame<V>, b: Frame<V>): (r: Frame<V>)
    requires a.Valid() && b.Valid()
    ensures r.Valid() && r.width == a.width + b.width
    ensures forall k :: k in Keys(r.rows) <==> k in Keys(a.rows) || k in Keys(b.rows)
  {
    var ks := SortedSet(Keys(a.rows) + Keys(b.rows));
    OuterRowsFromShape(a, b, ks);
    Frame(a.width + b.width, OuterRowsFrom(a, b, ks))
  }

  /** In a frame with distinct keys, k matches at most the row at its index. */
  lemma MatchesUnique<V>(f: Frame<V>, k: string)
    requires f.Valid() && UniqueKeys(f)
    ensures k in Keys(f.rows) ==> Matches(f.rows, k) == [f.rows[IndexOf(Keys(f.rows), k)]]
    ensures k in Keys(f.rows) ==> Lookup(f, k) == f.rows[IndexOf(Keys(f.rows), k)].vals
    ensures k !in Keys(f.rows) ==> Matches(f.rows, k) == [] && Lookup(f, k) == Nones(f.width)
  {
    LookupFirstMatch(f, k);
    if k in Keys(f.rows) {
      MatchesSingle(f.rows, IndexOf(Keys(f.rows), k));
    }
  }

  lemma ProductSingle<V>(x: Row<V>, y: Row<V>)
    ensures Product([x], [y]) == [Row(x.key, x.vals + y.vals)]
  {
    assert Product([x], [y]) == [Row(x.key, x.vals + y.vals)] + Product([], [y]);
  }

  lemma OuterRowsForUnique<V>(a: Frame<V>, b: Frame<V>, k: string)
    requires a.Valid() && b.Valid() && UniqueKeys(a) && UniqueKeys(b)
    requires k in Keys(a.rows) || k in Keys(b.rows)
    ensures OuterRowsFor(a, b, k) == [Row(k, Lookup(a, k) + Lookup(b, k))]
  {
    MatchesUnique(a, k);
    MatchesUnique(b, k);
    if k in Keys(a.rows) && k in Keys(b.rows) {
      ProductSingle(a.rows[IndexOf(Keys(a.rows), k)], b.rows[IndexOf(Keys(b.rows), k)]);
    }
  }

  /** The rows for keys ks, each the lookups in a and b side by side. */
  function Combined<V>(a: Frame<V>, b: Frame<V>, ks: seq<string>): (r: seq<Row<V>>)
    requires a.Valid() && b.Valid()
    ensures |r| == |ks|
    ensures forall i :: 0 <= i < |ks| ==> r[i] == Row(ks[i], Lookup(a, ks[i]) + Lookup(b, ks[i]))
  {
    seq(|ks|, i requires 0 <= i < |ks| => Row(ks[i], Lookup(a, ks[i]) + Lookup(b, ks[i])))
  }

  lemma CombinedCons<V>(a: Frame<V>, b: Frame<V>, ks: seq<string>)
    requires a.Valid() && b.Valid() && ks != []
    ensures Combined(a, b, ks) == [Row(ks[0], Lookup(a, ks[0]) + Lookup(b, ks[0]))] + Combined(a, b, ks[1..])
  {
  }

  lemma {:induction false} OuterRowsFromUnique<V>(a: Frame<V>, b: Frame<V>, ks: seq<string>)
    requires a.Valid() && b.Valid() && UniqueKeys(a) && UniqueKeys(b)
    requires forall k :: k in ks ==> k in Keys(a.rows) || k in Keys(b.rows)
    ensures OuterRowsFrom(a, b, ks) == Combined(a, b, ks)
  {
    if ks != [] {
      OuterRowsFromUnique(a, b, ks[1..]);
      OuterRowsForUnique(a, b, ks[0]);
      CombinedCons(a, b, ks);
    }
  }

  /** With distinct keys on both sides, the merge has distinct sorted keys and each row is the two lookups side by side. */
  lemma OuterJoinUnique<V>(a: Frame<V>, b: Frame<V>)
    requires a.Valid() && b.Valid() && UniqueKeys(a) && UniqueKeys(b)
    ensures UniqueKeys(OuterJoin(a, b))
    ensures StrictlySorted(Keys(OuterJoin(a, b).rows))
    ensures forall k :: Lookup(OuterJoin(a, b), k) == Lookup(a, k) + Lookup(b, k)
  {
    var ks := SortedSet(Keys(a.rows) + Keys(b.rows));
    OuterRowsFromUnique(a, b, ks);
    var r := OuterJoin(a, b);
    assert Keys(r.rows) == ks;
    forall i, j | 0 <= i < j < |ks| ensures ks[i] != ks[j] {
      StrictlySortedDistinct(ks, i, j);
    }
    forall k ensures Lookup(r, k) == Lookup(a, k) + Lookup(b, k) {
      MatchesUnique(r, k);
      MatchesUnique(a, k);
      MatchesUnique(b, k);
      if k !in ks {
        NonesSplit<V>(a.width, b.width);
      }
    }
  }

  function TotalWidth<V>(fs: seq<Frame<V>>): nat
  {
    if fs == [] then 0 else TotalWidth(fs[..|fs| - 1]) + fs[|fs| - 1].width
  }

  predicate AllValid<V>(fs: seq<Frame<V>>)
  {
    forall i :: 0 <= i < |fs| ==> fs[i].Valid()
  }

  predicate AllUnique<V>(fs: seq<Frame<V>>)
  {
    forall i :: 0 <= i < |fs| ==> UniqueKeys(fs[i])
  }

  /** The keys of every frame, one frame after another. */
  function AllKeys<V>(fs: seq<Frame<V>>): seq<string>
  {
    if fs == [] then [] else AllKeys(fs[..|fs| - 1]) + Keys(fs[|fs| - 1].rows)
  }

  lemma {:induction false} AllKeysIn<V>(fs: seq<Frame<V>>, k: string)
    ensures k in AllKeys(fs) <==> exists i :: 0 <= i < |fs| && k in Keys(fs[i].rows)
  {
    if fs != [] {
      var n := |fs| - 1;
      var init := fs[..n];
      AllKeysIn(init, k);
      assert AllKeys(fs) == AllKeys(init) + Keys(fs[n].rows);
      if k in AllKeys(init) {
        var i :| 0 <= i < n && k in Keys(init[i].rows);
        assert fs[i] == init[i];
      } else if k in Keys(fs[n].rows) {
      } else {
        forall i | 0 <= i < |fs| ensures k !in Keys(fs[i].rows) {
          if i < n {
            assert fs[i] == init[i];
          }
        }
      }
    }
  }

  /** `reduce(lambda x, y: pd.merge(x, y, on=key, how='outer'), fs)`. */
  function OuterJoinAll<V>(fs: seq<Frame<V>>): (r: Frame<V>)
    requires |fs| > 0 && AllValid(fs)
    ensures r.Valid() && r.width == TotalWidth(fs)
    ensures forall k :: k in Keys(r.rows) <==> k in AllKeys(fs)
  {
    if |fs| == 1 then
      assert fs[..0] == [];
      fs[0]
    else
      OuterJoin(OuterJoinAll(fs[..|fs| - 1]), fs[|fs| - 1])
  }

  /** The values of key k in each frame, concatenated. */
  function LookupAll<V>(fs: seq<Frame<V>>, k: string): (v: seq<Option<V>>)
    requires AllValid(fs)
    ensures |v| == TotalWidth(fs)
  {
    if fs == [] then [] else LookupAll(fs[..|fs| - 1], k) + Lookup(fs[|fs| - 1], k)
  }

  lemma SnocSplit<T>(s: seq<T>)
    requires s != []
    ensures s == s[..|s| - 1] + [s[|s| - 1]]
  {
  }

  /** For single-column frames, LookupAll collects the one cell of each. */
  lemma {:induction false} LookupAllSingles<V>(fs: seq<Frame<V>>, k: string, cells: seq<Option<V>>)
    requires AllValid(fs) && |cells| == |fs|
    requires forall i {:trigger Lookup(fs[i], k)} :: 0 <= i < |fs| ==> Lookup(fs[i], k) == [cells[i]]
    ensures LookupAll(fs, k) == cells
  {
    if fs != [] {
      var n := |fs| - 1;
      var init := fs[..n];
      var front := cells[..n];
      assert AllValid(init);
      assert forall i {:trigger Lookup(init[i], k)} :: 0 <= i < n ==> Lookup(init[i], k) == [front[i]];
      LookupAllSingles(init, k, front);
      SnocSplit(cells);
    }
  }

  /** Folding outer merges over frames with distinct keys: each row is the lookups in every frame, side by side. */
  lemma {:induction false} OuterJoinAllUnique<V>(fs: seq<Frame<V>>)
    requires |fs| > 0 && AllValid(fs) && AllUnique(fs)
    ensures UniqueKeys(OuterJoinAll(fs))
    ensures |fs| > 1 ==> StrictlySorted(Keys(OuterJoinAll(fs).rows))
    ensures forall k :: Lookup(OuterJoinAll(fs), k) == LookupAll(fs, k)
  {
    if |fs| == 1 {
      assert fs[..0] == [];
    } else {
      var init := fs[..|fs| - 1];
      OuterJoinAllUnique(init);
      OuterJoinUnique(OuterJoinAll(init), fs[|fs| - 1]);
    }
  }

  // ---------------------------------------------------------------- inner merge

  function JoinWith<V>(l: Row<V>, m: seq<Row<V>>): (r: seq<Row<V>>)
    ensures |r| == |m|
    ensures forall i :: 0 <= i < |m| ==> r[i] == Row(l.key, l.vals + m[i].vals)
  {
    seq(|m|, i requires 0 <= i < |m| => Row(l.key, l.vals + m[i].vals))
  }

  function InnerRowsFrom<V>(ls: seq<Row<V>>, b: Frame<V>): seq<Row<V>>
  {
    if ls == [] then [] else JoinWith(ls[0], Matches(b.rows, ls[0].key)) + InnerRowsFrom(ls[1..], b)
  }

  /** The keys of ks that also occur in other, in ks's order. */
  function KeepIn(ks: seq<string>, other: seq<string>): (r: seq<string>)
    ensures forall k :: k in r <==> k in ks && k in other
  {
    if ks == [] then []
    else
      assert ks == [ks[0]] + ks[1..];
      (if ks[0] in other then [ks[0]] else []) + KeepIn(ks[1..], other)
  }

  lemma JoinWithShape<V>(l: Row<V>, wa: nat, b: Frame<V>)
    requires |l.vals| == wa && b.Valid()
    ensures Frame(wa + b.width, JoinWith(l, Matches(b.rows, l.key))).Valid()
    ensures forall k :: k in Keys(JoinWith(l, Matches(b.rows, l.key))) <==> k == l.key && k in Keys(b.rows)
  {
    var m := Matches(b.rows, l.key);
    MatchesWidth(b, l.key);
    if m != [] {
      assert Keys(JoinWith(l, m))[0] == l.key;
    }
  }

  lemma {:induction false} InnerRowsFromShape<V>(ls: seq<Row<V>>, wa: nat, b: Frame<V>)
    requires b.Valid() && Frame(wa, ls).Valid()
    ensures Frame(wa + b.width, InnerRowsFrom(ls, b)).Valid()
    ensures forall k :: k in Keys(InnerRowsFrom(ls, b)) <==> k in Keys(ls) && k in Keys(b.rows)
  {
    if ls != [] {
      InnerRowsFromShape(ls[1..], wa, b);
      JoinWithShape(ls[0], wa, b);
      var head := JoinWith(ls[0], Matches(b.rows, ls[0].key));
      KeysConcat(head, InnerRowsFrom(ls[1..], b));
      ValidConcat(wa + b.width, head, InnerRowsFrom(ls[1..], b));
      assert Keys(ls) == [ls[0].key] + Keys(ls[1..]);
    }
  }

  /** `pd.merge(a, b, on=key)` (inner): for each left row, in order, every right row with its key. */
  function InnerJoin<V>(a: Frame<V>, b: Frame<V>): (r: Frame<V>)
    requires a.Valid() && b.Valid()
    ensures r.Valid() && r.width == a.width + b.width
    ensures forall k :: k in Keys(r.rows) <==> k in Keys(a.rows) && k in Keys(b.rows)
  {
    InnerRowsFromShape(a.rows, a.width, b);
    Frame(a.width + b.width, InnerRowsFrom(a.rows, b))
  }

/** The left rows whose key occurs in ks, in order. */
  function KeepRows<V>(ls: seq<Row<V>>, ks: seq<string>): (r: seq<Row<V>>)
    ensures forall i :: 0 <= i < |r| ==> r[i] in ls
  {
    if ls == [] then []
    else (if ls[0].key in ks then [ls[0]] else []) + KeepRows(ls[1..], ks)
  }

  lemma {:induction false} KeepRowsKeys<V>(ls: seq<Row<V>>, ks: seq<string>)
    ensures Keys(KeepRows(ls, ks)) == KeepIn(Keys(ls), ks)
  {
    if ls != [] {
      KeepRowsKeys(ls[1..], ks);
      var head: seq<Row<V>> := if ls[0].key in ks then [ls[0]] else [];
      var tail := KeepRows(ls[1..], ks);
      assert KeepRows(ls, ks) == head + tail;
      KeysConcat(head, tail);
      var kl := Keys(ls);
      assert kl[0] == ls[0].key && kl[1..] == Keys(ls[1..]);
      assert KeepIn(kl, ks) == (if kl[0] in ks then [kl[0]] else []) + KeepIn(kl[1..], ks);
      assert Keys(head) == if ls[0].key in ks then [ls[0].key] else [];
    }
  }

  /** Each row extended with the lookup of its key in b. */
  function Extend<V>(ls: seq<Row<V>>, b: Frame<V>): (r: seq<Row<V>>)
    requires b.Valid()
    ensures |r| == |ls|
    ensures forall i :: 0 <= i < |ls| ==> r[i] == Row(ls[i].key, ls[i].vals + Lookup(b, ls[i].key))
  {
    seq(|ls|, i requires 0 <= i < |ls| => Row(ls[i].key, ls[i].vals + Lookup(b, ls[i].key)))
  }

  lemma ExtendConcat<V>(x: seq<Row<V>>, y: seq<Row<V>>, b: Frame<V>)
    requires b.Valid()
    ensures Extend(x + y, b) == Extend(x, b) + Extend(y, b)
  {
  }

  lemma JoinWithUnique<V>(l: Row<V>, b: Frame<V>)
    requires b.Valid() && UniqueKeys(b)
    ensures JoinWith(l, Matches(b.rows, l.key)) == Extend(if l.key in Keys(b.rows) then [l] else [], b)
  {
    LookupFirstMatch(b, l.key);
    if l.key in Keys(b.rows) {
      MatchesSingle(b.rows, IndexOf(Keys(b.rows), l.key));
    }
  }

  lemma {:induction false} InnerRowsFromUnique<V>(ls: seq<Row<V>>, b: Frame<V>)
    requires b.Valid() && UniqueKeys(b)
    ensures InnerRowsFrom(ls, b) == Extend(KeepRows(ls, Keys(b.rows)), b)
  {
    if ls != [] {
      InnerRowsFromUnique(ls[1..], b);
      JoinWithUnique(ls[0], b);
      ExtendConcat(if ls[0].key in Keys(b.rows) then [ls[0]] else [], KeepRows(ls[1..], Keys(b.rows)), b);
    }
  }

  lemma {:induction false} KeepInDistinct(ks: seq<string>, other: seq<string>)
    requires Distinct(ks)
    ensures Distinct(KeepIn(ks, other))
  {
    if ks != [] {
      DistinctTail(ks);
      KeepInDistinct(ks[1..], other);
    }
  }

  /** With distinct keys on both sides, an inner merge keeps the left keys found on the right, in left order. */
  lemma InnerJoinUnique<V>(a: Frame<V>, b: Frame<V>)
    requires a.Valid() && b.Valid() && UniqueKeys(a) && UniqueKeys(b)
    ensures Keys(InnerJoin(a, b).rows) == KeepIn(Keys(a.rows), Keys(b.rows))
    ensures UniqueKeys(InnerJoin(a, b))
    ensures forall k :: k in Keys(InnerJoin(a, b).rows) ==> Lookup(InnerJoin(a, b), k) == Lookup(a, k) + Lookup(b, k)
  {
    var r := InnerJoin(a, b);
    var kept := KeepRows(a.rows, Keys(b.rows));
    InnerRowsFromUnique(a.rows, b);
    KeepRowsKeys(a.rows, Keys(b.rows));
    assert Keys(r.rows) == Keys(kept);
    KeepInDistinct(Keys(a.rows), Keys(b.rows));
    forall k | k in Keys(r.rows) ensures Lookup(r, k) == Lookup(a, k) + Lookup(b, k) {
      var i := IndexOf(Keys(r.rows), k);
      LookupAt(r, i);
      assert kept[i] in a.rows;
      var j :| 0 <= j < |a.rows| && a.rows[j] == kept[i];
      LookupAt(a, j);
    }
  }

  /** k is a key of every frame. */
  predicate InAll<V>(fs: seq<Frame<V>>, k: string)
  {
    forall i :: 0 <= i < |fs| ==> k in Keys(fs[i].rows)
  }

  /** `reduce(lambda x, y: pd.merge(x, y, on=key), fs)`. */
  function InnerJoinAll<V>(fs: seq<Frame<V>>): (r: Frame<V>)
    requires |fs| > 0 && AllValid(fs)
    ensures r.Valid() && r.width == TotalWidth(fs)
    ensures forall k :: k in Keys(r.rows) <==> InAll(fs, k)
  {
    if |fs| == 1 then
      assert fs[..0] == [];
      fs[0]
    else
      var init := fs[..|fs| - 1];
      InAllSnoc(fs, init);
      InnerJoin(InnerJoinAll(init), fs[|fs| - 1])
  }

  lemma InAllSnoc<V>(fs: seq<Frame<V>>, init: seq<Frame<V>>)
    requires fs != [] && init == fs[..|fs| - 1]
    ensures forall k :: InAll(fs, k) <==> InAll(init, k) && k in Keys(fs[|fs| - 1].rows)
  {
    forall k | InAll(init, k) && k in Keys(fs[|fs| - 1].rows) ensures InAll(fs, k) {
      forall i | 0 <= i < |fs| ensures k in Keys(fs[i].rows) {
        if i < |init| {
          assert init[i] == fs[i];
        }
      }
    }
  }

  /** s can be obtained from t by deleting elements. */
  predicate Subsequence<T(==)>(s: seq<T>, t: seq<T>)
    decreases |t|
  {
    if s == [] then true
    else if t == [] then false
    else if s[0] == t[0] then Subsequence(s[1..], t[1..])
    else Subsequence(s, t[1..])
  }

  lemma {:induction false} SubsequenceRefl<T>(s: seq<T>)
    ensures Subsequence(s, s)
  {
    if s != [] {
      SubsequenceRefl(s[1..]);
    }
  }

  lemma {:induction false} SubsequenceDropHead<T>(s: seq<T>, t: seq<T>)
    requires s != [] && Subsequence(s, t)
    ensures Subsequence(s[1..], t)
    decreases |s| + |t|
  {
    if s[0] != t[0] {
      SubsequenceDropHead(s, t[1..]);
      SubsequenceSkip(s[1..], t);
    } else {
      SubsequenceSkip(s[1..], t);
    }
  }

  lemma {:induction false} SubsequenceSkip<T>(s: seq<T>, t: seq<T>)
    requires t != [] && Subsequence(s, t[1..])
    ensures Subsequence(s, t)
    decreases |s| + |t|
  {
    if s != [] && s[0] == t[0] {
      SubsequenceDropHead(s, t[1..]);
    }
  }

  lemma {:induction false} KeepInSubsequence(ks: seq<string>, other: seq<string>)
    ensures Subsequence(KeepIn(ks, other), ks)
  {
    if ks != [] {
      KeepInSubsequence(ks[1..], other);
      if ks[0] in other {
        assert KeepIn(ks, other) == [ks[0]] + KeepIn(ks[1..], other);
      } else {
        assert KeepIn(ks, other) == KeepIn(ks[1..], other);
        SubsequenceSkip(KeepIn(ks, other), ks);
      }
    }
  }

  lemma {:induction false} SubsequenceTrans<T>(s: seq<T>, t: seq<T>, u: seq<T>)
    requires Subsequence(s, t) && Subsequence(t, u)
    ensures Subsequence(s, u)
    decreases |u|
  {
    if s != [] && u != [] {
      if t[0] == u[0] {
        if s[0] == t[0] {
          SubsequenceTrans(s[1..], t[1..], u[1..]);
        } else {
          SubsequenceTrans(s, t[1..], u[1..]);
        }
      } else {
        SubsequenceTrans(s, t, u[1..]);
        SubsequenceSkip(s, u);
      }
    }
  }

  /** Folding inner merges over frames with distinct keys keeps the first frame's key order. */
  lemma {:induction false} InnerJoinAllUnique<V>(fs: seq<Frame<V>>)
    requires |fs| > 0 && AllValid(fs) && AllUnique(fs)
    ensures UniqueKeys(InnerJoinAll(fs))
    ensures forall k :: k in Keys(InnerJoinAll(fs).rows) ==> Lookup(InnerJoinAll(fs), k) == LookupAll(fs, k)
    ensures Subsequence(Keys(InnerJoinAll(fs).rows), Keys(fs[0].rows))
  {
    if |fs| == 1 {
      assert fs[..0] == [];
      SubsequenceRefl(Keys(fs[0].rows));
    } else {
      var init := fs[..|fs| - 1];
      InnerJoinAllUnique(init);
      var acc := InnerJoinAll(init);
      InnerJoinUnique(acc, fs[|fs| - 1]);
      KeepInSubsequence(Keys(acc.rows), Keys(fs[|fs| - 1].rows));
      SubsequenceTrans(Keys(InnerJoinAll(fs).rows), Keys(acc.rows), Keys(init[0].rows));
    }
  }

  // ---------------------------------------------------------------- backfill and head

  /** The first present entry of s at or after position i, missing if there is none. */
  function NextPresent<V>(s: seq<Option<V>>, i: nat): Option<V>
    requires i <= |s|
    decreases |s| - i
  {
    if i == |s| then None else if s[i].Some? then s[i] else NextPresent(s, i + 1)
  }

  /** `fillna(method='bfill')` on one column. */
  function Backfill<V>(s: seq<Option<V>>): (r: seq<Option<V>>)
    ensures |r| == |s|
  {
    if s == [] then []
    else
      var t := Backfill(s[1..]);
      [if s[0].Some? || t == [] then s[0] else t[0]] + t
  }

  /** Backfill replaces each missing entry by the next later present one; trailing gaps stay missing. */
  lemma {:induction false} BackfillAt<V>(s: seq<Option<V>>, i: nat)
    requires i < |s|
    ensures Backfill(s)[i] == NextPresent(s, i)
    ensures s[i].Some? ==> Backfill(s)[i] == s[i]
    ensures Backfill(s)[i] == None <==> forall j :: i <= j < |s| ==> s[j] == None
    decreases |s| - i
  {
    BackfillShift(s, i);
    NextPresentShift(s, i);
    assert Backfill(s)[i] == Backfill(s[i..])[0];
    assert NextPresent(s, i) == NextPresent(s[i..], 0);
    var u := s[i..];
    if |u| > 1 && u[0].None? {
      BackfillAt(u, 1);
      assert Backfill(u)[0] == Backfill(u[1..])[0];
      NextPresentShift(u, 1);
      BackfillShift(u, 1);
    }
    NoneAfter(s, i);
  }

  lemma {:induction false} BackfillShift<V>(s: seq<Option<V>>, i: nat)
    requires i <= |s|
    ensures Backfill(s)[i..] == Backfill(s[i..])
  {
    if i > 0 {
      assert s[1..][i - 1..] == s[i..];
      BackfillShift(s[1..], i - 1);
    }
  }

  lemma {:induction false} NextPresentShift<V>(s: seq<Option<V>>, i: nat)
    requires i <= |s|
    ensures NextPresent(s, i) == NextPresent(s[i..], 0)
    decreases |s| - i
  {
    if i < |s| && s[i].None? {
      NextPresentShift(s, i + 1);
      NextPresentShift(s[i..], 1);
      assert s[i..][1..] == s[i + 1..];
    }
  }

  lemma {:induction false} NoneAfter<V>(s: seq<Option<V>>, i: nat)
    requires i <= |s|
    ensures NextPresent(s, i) == None <==> forall j :: i <= j < |s| ==> s[j] == None
    decreases |s| - i
  {
    if i < |s| {
      NoneAfter(s, i + 1);
    }
  }

  /** `fillna(method='bfill')` on every value column of a frame. */
  function BackfillFrame<V>(f: Frame<V>): (r: Frame<V>)
    requires f.Valid()
    ensures r.Valid() && r.width == f.width && Keys(r.rows) == Keys(f.rows)
    ensures forall i, j :: 0 <= i < |f.rows| && 0 <= j < f.width ==>
              r.rows[i].vals[j] == NextPresent(f.Column(j), i)
  {
    var cols := seq(f.width, j requires 0 <= j < f.width => Backfill(f.Column(j)));
    var r := Frame(f.width, seq(|f.rows|, i requires 0 <= i < |f.rows| =>
                     Row(f.rows[i].key, seq(f.width, j requires 0 <= j < f.width => cols[j][i]))));
    assert forall i, j :: 0 <= i < |f.rows| && 0 <= j < f.width ==>
             r.rows[i].vals[j] == NextPresent(f.Column(j), i) by {
      forall i, j | 0 <= i < |f.rows| && 0 <= j < f.width
        ensures r.rows[i].vals[j] == NextPresent(f.Column(j), i)
      {
        BackfillAt(f.Column(j), i);
      }
    }
    r
  }

  /** `head(n)`: the first n rows, or all but the last -n rows when n is negative. */
  function Head<T>(s: seq<T>, n: int): (r: seq<T>)
    ensures |r| == if n >= 0 then (if n < |s| then n else |s|) else (if |s| + n > 0 then |s| + n else 0)
    ensures r == s[..|r|]
  {
    if n >= 0 then (if n < |s| then s[..n] else s)
    else (if |s| + n > 0 then s[..|s| + n] else [])
  }

  /** `df.loc[:, ['Date', name]]`: the Date column and one country column as a frame keyed by date. */
  function SeriesFrame<V>(t: Table<V>, name: string): (f: Frame<V>)
    requires t.Valid() && name in t.names
    ensures f.Valid() && f.width == 1 && UniqueKeys(f) && Keys(f.rows) == t.dates
    ensures forall d :: Lookup(f, d) == [t.CellAt(name, d)]
  {
    var c := t.Column(name);
    var f := Frame(1, seq(|t.dates|, i requires 0 <= i < |t.dates| => Row(t.dates[i], [c[i]])));
    assert Keys(f.rows) == t.dates;
    assert forall d :: Lookup(f, d) == [t.CellAt(name, d)] by {
      forall d ensures Lookup(f, d) == [t.CellAt(name, d)] {
        LookupFirstMatch(f, d);
        if d in t.dates {
          MatchesSingle(f.rows, IndexOf(t.dates, d));
        }
      }
    }
    f
  }

  // ---------------------------------------------------------------- selections and inner merges

  /**
   * Boolean indexing: the rows that satisfy keep, in order, each as often
   * as it occurs in s.
   */
  function Where<T(==,!new)>(s: seq<T>, keep: T -> bool): (r: seq<T>)
    ensures Subsequence(r, s)
    ensures forall x :: multiset(r)[x] == if keep(x) then multiset(s)[x] else 0
    ensures forall x :: x in r <==> x in s && keep(x)
  {
    if s == [] then []
    else
      assert s == [s[0]] + s[1..];
      var w := Where(s[1..], keep);
      if keep(s[0]) then
        assert ([s[0]] + w)[1..] == w;
        [s[0]] + w
      else
        SubsequenceSkip(w, s);
        w
  }

  /** `s.apply(f)` on every row: the image of each row, in order. */
  function Map<T, U>(s: seq<T>, f: T -> U): (r: seq<U>)
    ensures |r| == |s| && forall i :: 0 <= i < |s| ==> r[i] == f(s[i])
  {
    seq(|s|, i requires 0 <= i < |s| => f(s[i]))
  }

  lemma MapConcat<T, U>(a: seq<T>, b: seq<T>, f: T -> U)
    ensures Map(a + b, f) == Map(a, f) + Map(b, f)
  {
  }

  /** Applying f row by row keeps a subsequence a subsequence. */
  lemma {:induction false} MapSubsequence<T, U>(s: seq<T>, t: seq<T>, f: T -> U)
    requires Subsequence(s, t)
    ensures Subsequence(Map(s, f), Map(t, f))
    decreases |t|
  {
    if s != [] {
      assert Map(t, f)[1..] == Map(t[1..], f);
      if s[0] == t[0] {
        assert Map(s, f)[1..] == Map(s[1..], f);
        MapSubsequence(s[1..], t[1..], f);
      } else {
        MapSubsequence(s, t[1..], f);
        SubsequenceSkip(Map(s, f), Map(t, f));
      }
    }
  }

  lemma SubsequenceCons<T>(x: T, s: seq<T>, t: seq<T>)
    requires Subsequence(s, t)
    ensures Subsequence([x] + s, [x] + t)
  {
    assert ([x] + s)[1..] == s && ([x] + t)[1..] == t;
  }

  /** Rows placed in front of a sequence can be skipped. */
  lemma {:induction false} SubsequenceSkipPrefix<T>(s: seq<T>, x: seq<T>, t: seq<T>)
    requires Subsequence(s, t)
    ensures Subsequence(s, x + t)
  {
    if x != [] {
      assert (x + t)[1..] == x[1..] + t;
      SubsequenceSkipPrefix(s, x[1..], t);
      SubsequenceSkip(s, x + t);
    } else {
      assert x + t == t;
    }
  }

  lemma {:induction false} SubsequenceMembers<T>(s: seq<T>, t: seq<T>)
    requires Subsequence(s, t)
    ensures forall z :: z in s ==> z in t
    decreases |t|
  {
    if s != [] {
      if s[0] == t[0] {
        SubsequenceMembers(s[1..], t[1..]);
        assert s == [s[0]] + s[1..];
      } else {
        SubsequenceMembers(s, t[1..]);
      }
    }
  }

  /** A subsequence of a sorted sequence is sorted. */
  lemma {:induction false} SubsequenceSorted(s: seq<string>, t: seq<string>)
    requires Subsequence(s, t) && Sorted(t)
    ensures Sorted(s)
    decreases |t|
  {
    if s != [] {
      assert Sorted(t[1..]);
      if s[0] == t[0] {
        SubsequenceSorted(s[1..], t[1..]);
        SubsequenceMembers(s[1..], t[1..]);
        SortedFirst(t);
        ConsSorted(s[0], s[1..]);
        assert s == [s[0]] + s[1..];
      } else {
        SubsequenceSorted(s, t[1..]);
      }
    }
  }

  /** Head length for n rows out of len, as `head(n)` takes them. */
  function HeadLength(len: nat, n: int): nat
  {
    if n >= 0 then (if n < len then n else len) else (if len + n > 0 then len + n else 0)
  }

  /** The right rows that match l, each combined with it, in right order. */
  function MatchRow<L, R, O>(l: L, rs: seq<R>, on: (L, R) -> bool, make: (L, R) -> O): seq<O>
  {
    if rs == [] then [] else (if on(l, rs[0]) then [make(l, rs[0])] else []) + MatchRow(l, rs[1..], on, make)
  }

  /**
   * `pd.merge(left, right)` with the default inner join: the left rows in
   * order, each followed by every right row it matches.
   */
  function InnerMerge<L, R, O>(ls: seq<L>, rs: seq<R>, on: (L, R) -> bool, make: (L, R) -> O): seq<O>
  {
    if ls == [] then [] else MatchRow(ls[0], rs, on, make) + InnerMerge(ls[1..], rs, on, make)
  }

  lemma {:induction false} MatchRowMembers<L, R, O>(l: L, rs: seq<R>, on: (L, R) -> bool, make: (L, R) -> O, o: O)
    ensures o in MatchRow(l, rs, on, make) <==> exists r :: r in rs && on(l, r) && o == make(l, r)
  {
    if rs != [] {
      MatchRowMembers(l, rs[1..], on, make, o);
      assert rs == [rs[0]] + rs[1..];
    }
  }

  /** A merged row is exactly a matching pair of a left and a right row. */
  lemma {:induction false} InnerMergeMembers<L, R, O>(ls: seq<L>, rs: seq<R>, on: (L, R) -> bool, make: (L, R) -> O, o: O)
    ensures o in InnerMerge(ls, rs, on, make) <==> exists l, r :: l in ls && r in rs && on(l, r) && o == make(l, r)
  {
    if ls != [] {
      InnerMergeMembers(ls[1..], rs, on, make, o);
      MatchRowMembers(ls[0], rs, on, make, o);
      assert ls == [ls[0]] + ls[1..];
    }
  }
}
