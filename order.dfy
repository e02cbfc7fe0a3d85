/**
 * The order Python and pandas use on strings (code point by code point,
 * a proper prefix first), and the two sorts the pipeline relies on:
 * `sorted(...)` of a list that may repeat names, and the sorted set of keys
 * that `groupby` and outer merges produce.
 */
module Order {

  /** Strict lexicographic order on strings. */
  predicate Lt(a: string, b: string)
    decreases |a|
  {
    if a == [] then b != []
    else if b == [] then false
    else if a[0] != b[0] then a[0] < b[0]
    else Lt(a[1..], b[1..])
  }

  predicate Le(a: string, b: string)
  {
    a == b || Lt(a, b)
  }

  lemma LtIrreflexive(a: string)
    ensures !Lt(a, a)
  {
    if a != [] {
      LtIrreflexive(a[1..]);
    }
  }

  lemma LtTransitive(a: string, b: string, c: string)
    requires Lt(a, b) && Lt(b, c)
    ensures Lt(a, c)
  {
    if a != [] && b != [] && c != [] && a[0] == b[0] && b[0] == c[0] {
      LtTransitive(a[1..], b[1..], c[1..]);
    }
  }

  lemma LtTotal(a: string, b: string)
    ensures a == b || Lt(a, b) || Lt(b, a)
  {
    if a != [] && b != [] && a[0] == b[0] {
      LtTotal(a[1..], b[1..]);
      if a[1..] == b[1..] {
        assert a == [a[0]] + a[1..] && b == [b[0]] + b[1..];
      }
    }
  }

  lemma LtAsymmetric(a: string, b: string)
    requires Lt(a, b)
    ensures !Lt(b, a) && a != b
  {
    LtIrreflexive(a);
    if Lt(b, a) {
      LtTransitive(a, b, a);
    }
  }

  lemma LeTransitive(a: string, b: string, c: string)
    requires Le(a, b) && Le(b, c)
    ensures Le(a, c)
  {
    if a != b && b != c {
      LtTransitive(a, b, c);
    }
  }

  lemma LeLtTransitive(a: string, b: string, c: string)
    requires Le(a, b) && Lt(b, c)
    ensures Lt(a, c)
  {
    if a != b {
      LtTransitive(a, b, c);
    }
  }

  predicate Sorted(s: seq<string>)
  {
    forall i, j :: 0 <= i < j < |s| ==> Le(s[i], s[j])
  }

  predicate StrictlySorted(s: seq<string>)
  {
    forall i, j :: 0 <= i < j < |s| ==> Lt(s[i], s[j])
  }

  lemma StrictlySortedDistinct(s: seq<string>, i: int, j: int)
    requires StrictlySorted(s) && 0 <= i < |s| && 0 <= j < |s| && i != j
    ensures s[i] != s[j]
  {
    if i < j {
      LtAsymmetric(s[i], s[j]);
    } else {
      LtAsymmetric(s[j], s[i]);
    }
  }

  lemma StrictlySortedIsSorted(s: seq<string>)
    requires StrictlySorted(s)
    ensures Sorted(s)
  {
  }

  lemma ConsSorted(x: string, s: seq<string>)
    requires Sorted(s)
    requires forall z :: z in s ==> Le(x, z)
    ensures Sorted([x] + s)
  {
    var r := [x] + s;
    forall i, j | 0 <= i < j < |r| ensures Le(r[i], r[j]) {
      if i > 0 {
        assert r[i] == s[i - 1] && r[j] == s[j - 1];
      } else {
        assert r[j] in s;
      }
    }
  }

  /** A run of one name followed by a sorted list of names not below it is sorted. */
  lemma {:induction false} RunThenSorted(a: seq<string>, b: seq<string>, c: string)
    requires forall z :: z in a ==> z == c
    requires Sorted(b) && forall z :: z in b ==> Le(c, z)
    ensures Sorted(a + b)
  {
    if a != [] {
      assert forall z :: z in a[1..] ==> z in a;
      RunThenSorted(a[1..], b, c);
      assert a + b == [a[0]] + (a[1..] + b);
      assert a[0] in a && forall z :: z in a[1..] + b ==> z in a[1..] || z in b;
      ConsSorted(a[0], a[1..] + b);
    }
  }

  /** The first name of a sorted list is not above any later one. */
  lemma SortedFirst(s: seq<string>)
    requires Sorted(s) && s != []
    ensures forall z :: z in s[1..] ==> Le(s[0], z)
  {
    forall z | z in s[1..] ensures Le(s[0], z) {
      var j :| 0 <= j < |s[1..]| && s[1..][j] == z;
      assert s[j + 1] == z;
    }
  }

  lemma ConsStrictlySorted(x: string, s: seq<string>)
    requires StrictlySorted(s)
    requires forall z :: z in s ==> Lt(x, z)
    ensures StrictlySorted([x] + s)
  {
    var r := [x] + s;
    forall i, j | 0 <= i < j < |r| ensures Lt(r[i], r[j]) {
      if i > 0 {
        assert r[i] == s[i - 1] && r[j] == s[j - 1];
      } else {
        assert r[j] in s;
      }
    }
  }

  /** A list whose neighbours are in strict order is strictly sorted. */
  lemma {:induction false} ChainStrictlySorted(s: seq<string>)
    requires forall i :: 0 <= i < |s| - 1 ==> Lt(s[i], s[i + 1])
    ensures StrictlySorted(s)
  {
    if |s| > 1 {
      var t := s[1..];
      forall i | 0 <= i < |t| - 1 ensures Lt(t[i], t[i + 1]) {
        assert t[i] == s[i + 1] && t[i + 1] == s[i + 2];
      }
      ChainStrictlySorted(t);
      forall z | z in t ensures Lt(s[0], z) {
        var k :| 0 <= k < |t| && t[k] == z;
        if k > 0 {
          assert Lt(t[0], t[k]);
          LtTransitive(s[0], t[0], z);
        }
      }
      assert s == [s[0]] + t;
      ConsStrictlySorted(s[0], t);
    }
  }

  /** Inserts x before the first element it does not exceed. */
  function Insert(x: string, s: seq<string>): (r: seq<string>)
    requires Sorted(s)
    ensures Sorted(r)
    ensures multiset(r) == multiset(s) + multiset{x}
  {
    if s == [] then [x]
    else if Le(x, s[0]) then
      (forall z | z in s ensures Le(x, z) {
         if z != s[0] {
           var k :| 0 <= k < |s| && s[k] == z;
           LeTransitive(x, s[0], z);
         }
       }
       ConsSorted(x, s);
       [x] + s)
    else
      (LtTotal(x, s[0]);
       var t := Insert(x, s[1..]);
       assert s == [s[0]] + s[1..];
       forall z | z in t ensures Le(s[0], z) {
         assert z in multiset(t);
         if z != x {
           assert z in multiset(s[1..]);
           var k :| 0 <= k < |s[1..]| && s[1..][k] == z;
           assert s[k + 1] == z;
         }
       }
       ConsSorted(s[0], t);
       [s[0]] + t)
  }

  /** Insertion sort: Python's `sorted` on a list of strings. */
  function Sort(s: seq<string>): (r: seq<string>)
    ensures Sorted(r)
    ensures multiset(r) == multiset(s)
    ensures |r| == |s|
  {
    if s == [] then []
    else
      assert s == [s[0]] + s[1..];
      var r := Insert(s[0], Sort(s[1..]));
      assert |r| == |multiset(r)|;
      r
  }

  /** Sorting a list that is already in order leaves it unchanged. */
  lemma {:induction false} SortOfSorted(s: seq<string>)
    requires Sorted(s)
    ensures Sort(s) == s
  {
    if s != [] {
      assert Sorted(s[1..]);
      SortOfSorted(s[1..]);
      assert Sort(s) == Insert(s[0], s[1..]);
      if |s| > 1 {
        assert Le(s[0], s[1]);
      }
    }
  }

  /** Inserts x into a strictly sorted list unless it is already there. */
  function InsertUnique(x: string, s: seq<string>): (r: seq<string>)
    requires StrictlySorted(s)
    ensures StrictlySorted(r)
    ensures forall z :: z in r <==> z in s || z == x
  {
    if s == [] then [x]
    else if x == s[0] then s
    else if Lt(x, s[0]) then
      (forall z | z in s ensures Lt(x, z) {
         if z != s[0] {
           var k :| 0 <= k < |s| && s[k] == z;
           LtTransitive(x, s[0], z);
         }
       }
       ConsStrictlySorted(x, s);
       [x] + s)
    else
      (LtTotal(x, s[0]);
       var t := InsertUnique(x, s[1..]);
       assert s == [s[0]] + s[1..];
       forall z | z in t ensures Lt(s[0], z) {
         if z != x {
           var k :| 0 <= k < |s[1..]| && s[1..][k] == z;
           assert s[k + 1] == z;
         }
       }
       ConsStrictlySorted(s[0], t);
       [s[0]] + t)
  }

  /**
   * The distinct elements of s in ascending order: the key order of
   * `groupby` and of an outer merge.
   */
  function SortedSet(s: seq<string>): (r: seq<string>)
    ensures StrictlySorted(r)
    ensures forall z :: z in r <==> z in s
  {
    if s == [] then []
    else
      assert s == [s[0]] + s[1..];
      InsertUnique(s[0], SortedSet(s[1..]))
  }

  /** A strictly sorted list is the sorted set of itself. */
  lemma {:induction false} SortedSetOfStrictlySorted(s: seq<string>)
    requires StrictlySorted(s)
    ensures SortedSet(s) == s
  {
    if s != [] {
      assert StrictlySorted(s[1..]);
      SortedSetOfStrictlySorted(s[1..]);
      if |s| > 1 {
        assert Lt(s[0], s[1]);
        LtAsymmetric(s[0], s[1]);
      }
    }
  }
}
