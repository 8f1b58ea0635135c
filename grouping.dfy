/** Grouping by district. `groupBy("area").agg(...)` yields one (district,
    aggregate) row per district in an order the engine does not specify, and
    the analysis puts those rows in order with Python's `sorted`
    (app/rent_analyse.py:59-60, 70-73). This module shows that sorting removes
    the engine's order: whatever order the groups came in, the sorted rows
    are the aggregates taken over the districts in ascending name order. */
module Grouping {
  import opened Ordering
  import opened Table

  /** `keys` lists every district of the table exactly once, in some order:
      what `distinct()` and `groupBy` produce. */
  ghost predicate IsEnumeration(keys: seq<string>, t: seq<Record>)
  {
    && (forall i, j :: 0 <= i < j < |keys| ==> keys[i] != keys[j])
    && (forall a :: a in keys <==> a in Areas(t))
  }

  /** A list without repeats has as many elements as it has distinct
      elements. */
  lemma {:induction false} DistinctCardinality(keys: seq<string>)
    requires forall i, j :: 0 <= i < j < |keys| ==> keys[i] != keys[j]
    ensures |set k | k in keys| == |keys|
  {
    if |keys| > 0 {
      DistinctCardinality(keys[1..]);
      assert (set k | k in keys) == (set k | k in keys[1..]) + {keys[0]};
      assert keys[0] !in (set k | k in keys[1..]);
    }
  }

  /** Any two enumerations of the districts have the same length. */
  lemma EnumerationsSameLength(a: seq<string>, b: seq<string>, t: seq<Record>)
    requires IsEnumeration(a, t) && IsEnumeration(b, t)
    ensures |a| == |b|
  {
    DistinctCardinality(a);
    DistinctCardinality(b);
    assert (set k | k in a) == (set k | k in b);
  }

  /** Two different lists of the same length differ at some position. */
  lemma {:induction false} DifferAt(a: seq<string>, b: seq<string>)
    requires |a| == |b| && a != b
    ensures exists i :: 0 <= i < |a| && a[i] != b[i]
  {
    assert |a| > 0;
    if a[0] == b[0] {
      assert a == [a[0]] + a[1..] && b == [b[0]] + b[1..];
      DifferAt(a[1..], b[1..]);
      var i :| 0 <= i < |a| - 1 && a[1..][i] != b[1..][i];
      assert a[i + 1] != b[i + 1];
    }
  }

  /** A listing of the districts is in ascending order exactly when it is
      the ascending district list. */
  lemma AscendingEnumeration(keys: seq<string>, t: seq<Record>)
    requires IsEnumeration(keys, t)
    ensures StrictlySorted(keys) <==> keys == SortedAreas(t)
  {
    if StrictlySorted(keys) {
      StrictlySortedUnique(keys, SortedAreas(t));
    }
  }

  /** `k` added to a strictly sorted name list, unless it is already there. */
  function InsertName(k: string, s: seq<string>): (r: seq<string>)
    ensures forall a :: a in r <==> a == k || a in s
  {
    if |s| == 0 then [k]
    else if k == s[0] then s
    else if Less(k, s[0]) then [k] + s
    else [s[0]] + InsertName(k, s[1..])
  }

  lemma {:induction false} InsertNameSorted(k: string, s: seq<string>)
    requires StrictlySorted(s)
    ensures StrictlySorted(InsertName(k, s))
  {
    if |s| > 0 && k != s[0] {
      if Less(k, s[0]) {
        forall j | 0 < j < |s| ensures Less(k, s[j]) {
          LessTransitive(k, s[0], s[j]);
        }
      } else {
        LessTotal(k, s[0]);
        InsertNameSorted(k, s[1..]);
        var rest := InsertName(k, s[1..]);
        forall j | 0 <= j < |rest| ensures Less(s[0], rest[j]) {
          assert rest[j] in rest;
          if rest[j] != k {
            var i :| 0 <= i < |s[1..]| && s[1..][i] == rest[j];
            assert s[i + 1] == rest[j];
          }
        }
      }
    }
  }

  /** The distinct names in ascending order. */
  function SortedDistinct(names: seq<string>): (r: seq<string>)
    ensures StrictlySorted(r)
    ensures forall a :: a in r <==> a in names
  {
    if |names| == 0 then []
    else
      var rest := SortedDistinct(names[1..]);
      InsertNameSorted(names[0], rest);
      assert forall a :: a in names <==> a == names[0] || a in names[1..];
      InsertName(names[0], rest)
  }

  /** The district list in ascending order: the one order every per-district
      column is meant to share. */
  function SortedAreas(t: seq<Record>): (r: seq<string>)
    ensures StrictlySorted(r)
    ensures IsEnumeration(r, t)
  {
    var r := SortedDistinct(Areas(t));
    StrictlySortedDistinct(r);
    r
  }

  /** One aggregate pass in the given group order: each district paired with
      the aggregate of its rows. */
  function GroupAgg<T(==,!new)>(t: seq<Record>, keys: seq<string>, agg: seq<Record> -> T): (g: seq<(string, T)>)
    ensures |g| == |keys|
    ensures forall i :: 0 <= i < |keys| ==> g[i].0 == keys[i] && g[i].1 == agg(RowsIn(t, g[i].0))
  {
    seq(|keys|, i requires 0 <= i < |keys| => (keys[i], agg(RowsIn(t, keys[i]))))
  }

  /** The aggregate column of grouped rows (`[row[1] for row in rows]`). */
  function Column<T(==,!new)>(g: seq<(string, T)>): (c: seq<T>)
    ensures |c| == |g|
    ensures forall i :: 0 <= i < |g| ==> c[i] == g[i].1
  {
    seq(|g|, i requires 0 <= i < |g| => g[i].1)
  }

  /** The rows are in strictly ascending district order. */
  ghost predicate SortedByKey<T(!new)>(g: seq<(string, T)>)
  {
    forall i, j :: 0 <= i < j < |g| ==> Less(g[i].0, g[j].0)
  }

  /** `p` put before the first row whose district does not sort before it. */
  function InsertByKey<T(==,!new)>(p: (string, T), g: seq<(string, T)>): (r: seq<(string, T)>)
    ensures |r| == |g| + 1
    ensures multiset(r) == multiset{p} + multiset(g)
    ensures forall x :: x in r <==> x == p || x in g
  {
    if |g| == 0 then [p]
    else if !Less(g[0].0, p.0) then [p] + g
    else
      assert g == [g[0]] + g[1..];
      [g[0]] + InsertByKey(p, g[1..])
  }

  lemma {:induction false} InsertByKeySorted<T(!new)>(p: (string, T), g: seq<(string, T)>)
    requires SortedByKey(g)
    requires forall i :: 0 <= i < |g| ==> g[i].0 != p.0
    ensures SortedByKey(InsertByKey(p, g))
  {
    if |g| > 0 {
      if !Less(g[0].0, p.0) {
        LessTotal(p.0, g[0].0);
        forall j | 0 < j < |g| ensures Less(p.0, g[j].0) {
          LessTransitive(p.0, g[0].0, g[j].0);
        }
      } else {
        InsertByKeySorted(p, g[1..]);
        var rest := InsertByKey(p, g[1..]);
        forall j | 0 <= j < |rest| ensures Less(g[0].0, rest[j].0) {
          assert rest[j] in rest;
          if rest[j] != p {
            var i :| 0 <= i < |g[1..]| && g[1..][i] == rest[j];
            assert g[i + 1] == rest[j];
          }
        }
      }
    }
  }

  /** Python's `sorted` over grouped rows whose districts are distinct: the
      same rows, by ascending district. */
  function SortByKey<T(==,!new)>(g: seq<(string, T)>): (r: seq<(string, T)>)
    ensures |r| == |g|
    ensures multiset(r) == multiset(g)
    ensures forall x :: x in r <==> x in g
  {
    if |g| == 0 then []
    else
      assert g == [g[0]] + g[1..];
      assert forall x :: x in g <==> x == g[0] || x in g[1..];
      InsertByKey(g[0], SortByKey(g[1..]))
  }

  lemma {:induction false} SortByKeySorted<T(!new)>(g: seq<(string, T)>)
    requires forall i, j :: 0 <= i < j < |g| ==> g[i].0 != g[j].0
    ensures SortedByKey(SortByKey(g))
  {
    if |g| > 0 {
      var rest := SortByKey(g[1..]);
      SortByKeySorted(g[1..]);
      forall i | 0 <= i < |rest| ensures rest[i].0 != g[0].0 {
        assert rest[i] in g[1..];
      }
      InsertByKeySorted(g[0], rest);
    }
  }

  /** Two lists of rows sorted by district that hold the same rows are the
      same list. */
  lemma {:induction false} SortedByKeyUnique<T(!new)>(a: seq<(string, T)>, b: seq<(string, T)>)
    requires SortedByKey(a) && SortedByKey(b)
    requires forall x :: x in a <==> x in b
    ensures a == b
  {
    if |a| == 0 {
      FirstIsMember(b);
    } else {
      assert a[0] in b;
      var j :| 0 <= j < |b| && b[j] == a[0];
      assert b[0] in a;
      var i :| 0 <= i < |a| && a[i] == b[0];
      if j > 0 {
        if i > 0 {
          LessAsymmetric(a[0].0, a[i].0);
        } else {
          LessIrreflexive(b[0].0);
        }
      }
      forall x ensures x in a[1..] <==> x in b[1..] {
        if x in a[1..] {
          var k :| 1 <= k < |a| && a[k] == x;
          LessIrreflexive(a[0].0);
          assert x != b[0];
          assert x in b;
        }
        if x in b[1..] {
          var k :| 1 <= k < |b| && b[k] == x;
          LessIrreflexive(b[0].0);
          assert x != a[0];
          assert x in a;
        }
      }
      SortedByKeyUnique(a[1..], b[1..]);
      assert a == [a[0]] + a[1..] && b == [b[0]] + b[1..];
    }
  }

  /** The rows of one aggregate pass are the districts with their aggregates,
      whatever the pass's group order. */
  lemma GroupAggRows<T(!new)>(t: seq<Record>, keys: seq<string>, agg: seq<Record> -> T)
    ensures forall x :: x in GroupAgg(t, keys, agg) <==> x.0 in keys && x.1 == agg(RowsIn(t, x.0))
  {
    var g := GroupAgg(t, keys, agg);
    forall x ensures x in g <==> x.0 in keys && x.1 == agg(RowsIn(t, x.0)) {
      if x.0 in keys && x.1 == agg(RowsIn(t, x.0)) {
        var i :| 0 <= i < |keys| && keys[i] == x.0;
        assert g[i] == x;
      }
    }
  }

  /** Sorting a pass's rows yields the aggregates over the districts in
      ascending order, whatever order the engine grouped them in. This is what
      lets independently computed per-district columns be zipped by
      position. */
  lemma SortedGroupsIndependent<T(!new)>(t: seq<Record>, order: seq<string>, agg: seq<Record> -> T)
    requires IsEnumeration(order, t)
    ensures SortByKey(GroupAgg(t, order, agg)) == GroupAgg(t, SortedAreas(t), agg)
  {
    var g := GroupAgg(t, order, agg);
    var canon := SortedAreas(t);
    var b := GroupAgg(t, canon, agg);
    SortByKeySorted(g);
    GroupAggRows(t, order, agg);
    GroupAggRows(t, canon, agg);
    assert SortedByKey(b);
    SortedByKeyUnique(SortByKey(g), b);
  }

  /** The same, read column by column: position i of the sorted column is the
      aggregate of the i-th district in ascending order. */
  lemma SortedColumnAligned<T(!new)>(t: seq<Record>, order: seq<string>, agg: seq<Record> -> T)
    requires IsEnumeration(order, t)
    ensures |Column(SortByKey(GroupAgg(t, order, agg)))| == |SortedAreas(t)|
    ensures forall i :: 0 <= i < |SortedAreas(t)| ==>
              Column(SortByKey(GroupAgg(t, order, agg)))[i] == agg(RowsIn(t, SortedAreas(t)[i]))
  {
    SortedGroupsIndependent(t, order, agg);
  }
}
