/** `top_locations`: the ten most frequent locations of the full dataset,
    most frequent first (`value_counts().nlargest(10)`). */
module Locations {
  import opened Records

  const TopLocationLimit: nat := 10

  predicate NoDuplicates(xs: seq<string>)
  {
    forall i, j :: 0 <= i < j < |xs| ==> xs[i] != xs[j]
  }

  /** How many rows are at location `l`. */
  function LocationCount(ds: seq<Player>, l: string): nat
  {
    if ds == [] then 0
    else LocationCount(ds[..|ds| - 1], l) + (if ds[|ds| - 1].location == l then 1 else 0)
  }

  /** The location column. */
  function LocationColumn(ds: seq<Player>): (col: seq<string>)
    ensures |col| == |ds|
    ensures forall i :: 0 <= i < |ds| ==> col[i] == ds[i].location
  {
    seq(|ds|, i requires 0 <= i < |ds| => ds[i].location)
  }

  /** The distinct values of `xs`, in order of first occurrence. */
  function Distinct(xs: seq<string>): (r: seq<string>)
    ensures NoDuplicates(r)
    ensures forall y :: y in r <==> y in xs
  {
    if xs == [] then []
    else
      var rest := Distinct(xs[..|xs| - 1]);
      if xs[|xs| - 1] in rest then rest else rest + [xs[|xs| - 1]]
  }

  /** Counts do not increase along `s`. */
  predicate ByCount(s: seq<string>, count: string -> nat)
  {
    forall i, j :: 0 <= i < j < |s| ==> count(s[j]) <= count(s[i])
  }

  /** Places `x` after every entry of `s` at least as frequent as it, so that among
      equally frequent locations the one inserted first stays first. */
  function InsertByCount(x: string, s: seq<string>, count: string -> nat): (r: seq<string>)
    ensures |r| == |s| + 1
    ensures forall y :: y in r <==> y == x || y in s
  {
    if s == [] then [x]
    else if count(s[0]) >= count(x) then
      var rest := InsertByCount(x, s[1..], count);
      assert forall y :: y in s ==> y == s[0] || y in s[1..];
      [s[0]] + rest
    else [x] + s
  }

  lemma {:induction false} InsertKeepsOrder(x: string, s: seq<string>, count: string -> nat)
    requires ByCount(s, count)
    ensures ByCount(InsertByCount(x, s, count), count)
  {
    if s != [] && count(s[0]) >= count(x) {
      var tail := s[1..];
      assert ByCount(tail, count) by {
        forall i, j | 0 <= i < j < |tail| ensures count(tail[j]) <= count(tail[i]) {
          assert tail[i] == s[i + 1] && tail[j] == s[j + 1];
        }
      }
      InsertKeepsOrder(x, tail, count);
      var rest := InsertByCount(x, tail, count);
      var r := [s[0]] + rest;
      forall j | 0 <= j < |rest| ensures count(rest[j]) <= count(s[0]) {
        assert rest[j] in rest;
        if rest[j] != x {
          var k :| 0 <= k < |tail| && tail[k] == rest[j];
          assert tail[k] == s[k + 1];
        }
      }
      forall i, j | 0 <= i < j < |r| ensures count(r[j]) <= count(r[i]) {
        if i == 0 {
          assert r[j] == rest[j - 1];
        } else {
          assert r[i] == rest[i - 1] && r[j] == rest[j - 1];
        }
      }
    } else if s != [] {
      var r := [x] + s;
      forall i, j | 0 <= i < j < |r| ensures count(r[j]) <= count(r[i]) {
        if i == 0 {
          assert r[j] == s[j - 1];
          assert count(s[j - 1]) <= count(s[0]);
        } else {
          assert r[i] == s[i - 1] && r[j] == s[j - 1];
        }
      }
    }
  }

  lemma {:induction false} InsertKeepsDistinct(x: string, s: seq<string>, count: string -> nat)
    requires NoDuplicates(s) && x !in s
    ensures NoDuplicates(InsertByCount(x, s, count))
  {
    if s != [] && count(s[0]) >= count(x) {
      var tail := s[1..];
      assert NoDuplicates(tail) by {
        forall i, j | 0 <= i < j < |tail| ensures tail[i] != tail[j] {
          assert tail[i] == s[i + 1] && tail[j] == s[j + 1];
        }
      }
      assert x !in tail;
      InsertKeepsDistinct(x, tail, count);
      var rest := InsertByCount(x, tail, count);
      assert s[0] !in tail by {
        forall k | 0 <= k < |tail| ensures tail[k] != s[0] {
          assert tail[k] == s[k + 1];
        }
      }
      assert s[0] !in rest;
      var r := [s[0]] + rest;
      forall i, j | 0 <= i < j < |r| ensures r[i] != r[j] {
        if i == 0 {
          assert r[j] == rest[j - 1];
          assert rest[j - 1] in rest;
        } else {
          assert r[i] == rest[i - 1] && r[j] == rest[j - 1];
        }
      }
    } else if s != [] {
      var r := [x] + s;
      forall i, j | 0 <= i < j < |r| ensures r[i] != r[j] {
        if i == 0 {
          assert r[j] == s[j - 1];
        } else {
          assert r[i] == s[i - 1] && r[j] == s[j - 1];
        }
      }
    }
  }

  /** The candidates ordered by count, most frequent first, ties in candidate order. */
  function SortByCount(cands: seq<string>, count: string -> nat): (sorted: seq<string>)
    ensures |sorted| == |cands|
    ensures forall y :: y in sorted <==> y in cands
  {
    if cands == [] then []
    else
      var init := cands[..|cands| - 1];
      assert forall y :: y in cands ==> y in init || y == cands[|cands| - 1];
      InsertByCount(cands[|cands| - 1], SortByCount(init, count), count)
  }

  lemma {:induction false} SortIsOrdered(cands: seq<string>, count: string -> nat)
    ensures ByCount(SortByCount(cands, count), count)
  {
    if cands != [] {
      var init := cands[..|cands| - 1];
      SortIsOrdered(init, count);
      InsertKeepsOrder(cands[|cands| - 1], SortByCount(init, count), count);
    }
  }

  lemma {:induction false} SortKeepsDistinct(cands: seq<string>, count: string -> nat)
    requires NoDuplicates(cands)
    ensures NoDuplicates(SortByCount(cands, count))
  {
    if cands != [] {
      var init, last := cands[..|cands| - 1], cands[|cands| - 1];
      assert NoDuplicates(init) by {
        forall i, j | 0 <= i < j < |init| ensures init[i] != init[j] {
          assert init[i] == cands[i] && init[j] == cands[j];
        }
      }
      assert last !in init by {
        forall k | 0 <= k < |init| ensures init[k] != last {
          assert init[k] == cands[k];
        }
      }
      SortKeepsDistinct(init, count);
      InsertKeepsDistinct(last, SortByCount(init, count), count);
    }
  }

  /** How often each location occurs in the dataset. */
  function Frequency(ds: seq<Player>): string -> nat
  {
    l => LocationCount(ds, l)
  }

  /** A prefix of an ordered list without duplicates is ordered and has no duplicates. */
  lemma PrefixKeeps(s: seq<string>, n: nat, count: string -> nat)
    requires n <= |s| && ByCount(s, count) && NoDuplicates(s)
    ensures ByCount(s[..n], count) && NoDuplicates(s[..n])
  {
    assert forall i :: 0 <= i < n ==> s[..n][i] == s[i];
  }

  /** Every distinct location is the location of some row. */
  lemma DistinctLocationsOccur(ds: seq<Player>, l: string)
    requires l in Distinct(LocationColumn(ds))
    ensures exists i :: 0 <= i < |ds| && ds[i].location == l
  {
    var col := LocationColumn(ds);
    var i :| 0 <= i < |col| && col[i] == l;
    assert ds[i].location == l;
  }

  /** The locations offered in the location select box besides the wildcard and the
      bucket: the first ten of the distinct locations ordered by count, so counts do
      not increase along the list. */
  function TopLocations(ds: seq<Player>): (top: seq<string>)
    ensures |top| <= TopLocationLimit
    ensures NoDuplicates(top)
    ensures forall l :: l in top ==> exists i :: 0 <= i < |ds| && ds[i].location == l
    ensures ByCount(top, Frequency(ds))
  {
    var cands := Distinct(LocationColumn(ds));
    var sorted := SortByCount(cands, Frequency(ds));
    SortIsOrdered(cands, Frequency(ds));
    SortKeepsDistinct(cands, Frequency(ds));
    var n := if |sorted| > TopLocationLimit then TopLocationLimit else |sorted|;
    PrefixKeeps(sorted, n, Frequency(ds));
    var top := sorted[..n];
    assert forall l :: l in top ==> exists i :: 0 <= i < |ds| && ds[i].location == l by {
      forall l | l in top ensures exists i :: 0 <= i < |ds| && ds[i].location == l {
        DistinctLocationsOccur(ds, l);
      }
    }
    top
  }

  /** A location left out of the top list is no more frequent than any location in it,
      and the list is short only when the dataset has fewer than ten locations. */
  lemma TopLocationsDominate(ds: seq<Player>, l: string)
    requires exists i :: 0 <= i < |ds| && ds[i].location == l
    requires l !in TopLocations(ds)
    ensures |TopLocations(ds)| == TopLocationLimit
    ensures forall t :: t in TopLocations(ds) ==> LocationCount(ds, l) <= LocationCount(ds, t)
  {
    var col := LocationColumn(ds);
    var cands := Distinct(col);
    var sorted := SortByCount(cands, Frequency(ds));
    SortIsOrdered(cands, Frequency(ds));
    var i :| 0 <= i < |ds| && ds[i].location == l;
    assert col[i] == l;
    assert l in sorted;
    var j :| 0 <= j < |sorted| && sorted[j] == l;
    assert |sorted| > TopLocationLimit;
    var top := sorted[..TopLocationLimit];
    assert TopLocations(ds) == top;
    assert j >= TopLocationLimit;
    forall t | t in top ensures LocationCount(ds, l) <= LocationCount(ds, t) {
      var k :| 0 <= k < |top| && top[k] == t;
      assert sorted[k] == t;
      assert Frequency(ds)(sorted[j]) <= Frequency(ds)(sorted[k]);
    }
  }

  /** With at most ten distinct locations every location present is a top location. */
  lemma FewLocationsAllTop(ds: seq<Player>, l: string)
    requires |Distinct(LocationColumn(ds))| <= TopLocationLimit
    requires exists i :: 0 <= i < |ds| && ds[i].location == l
    ensures l in TopLocations(ds)
  {
    var col := LocationColumn(ds);
    var cands := Distinct(col);
    var sorted := SortByCount(cands, Frequency(ds));
    assert TopLocations(ds) == sorted[..|sorted|] == sorted;
    var i :| 0 <= i < |ds| && ds[i].location == l;
    assert col[i] == l;
  }
}
