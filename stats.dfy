/** The SQL aggregates the analysis applies to a list of non-null prices:
    `min`, `max`, `mean` and the 50th percentile of `percentile_approx`. Each
    is null (None) over an empty list, as in SQL. */
module Stats {
  import opened Wrappers

  function Sum(s: seq<int>): int
  {
    if |s| == 0 then 0 else s[0] + Sum(s[1..])
  }

  /** The least element. */
  function Min(s: seq<int>): (m: int)
    requires |s| > 0
    ensures m in s
    ensures forall x :: x in s ==> m <= x
  {
    if |s| == 1 then s[0]
    else
      var rest := Min(s[1..]);
      assert forall x :: x in s ==> x == s[0] || x in s[1..];
      if s[0] <= rest then s[0] else rest
  }

  /** The greatest element. */
  function Max(s: seq<int>): (m: int)
    requires |s| > 0
    ensures m in s
    ensures forall x :: x in s ==> x <= m
  {
    if |s| == 1 then s[0]
    else
      var rest := Max(s[1..]);
      assert forall x :: x in s ==> x == s[0] || x in s[1..];
      if s[0] >= rest then s[0] else rest
  }

  /** SQL `min`: the least value, null when there is none. */
  function MinOf(s: seq<int>): (r: Option<int>)
    ensures r.None? <==> |s| == 0
    ensures r.Some? ==> r.value in s && forall x :: x in s ==> r.value <= x
  {
    if |s| == 0 then None else Some(Min(s))
  }

  /** SQL `max`: the greatest value, null when there is none. */
  function MaxOf(s: seq<int>): (r: Option<int>)
    ensures r.None? <==> |s| == 0
    ensures r.Some? ==> r.value in s && forall x :: x in s ==> x <= r.value
  {
    if |s| == 0 then None else Some(Max(s))
  }

  /** SQL `mean`, exactly: the value that, taken once per element, makes up
      the total; null when there is no value. */
  function MeanOf(s: seq<int>): (r: Option<real>)
    ensures r.None? <==> |s| == 0
    ensures r.Some? ==> r.value * (|s| as real) == Sum(s) as real
  {
    if |s| == 0 then None else Some(Sum(s) as real / (|s| as real))
  }

  /** When every value lies in [lo, hi], the total lies between count times
      lo and count times hi. */
  lemma {:induction false} SumBounded(s: seq<int>, lo: int, hi: int)
    requires forall x :: x in s ==> lo <= x <= hi
    ensures |s| * lo <= Sum(s) <= |s| * hi
  {
    if |s| > 0 {
      assert s[0] in s;
      assert forall x :: x in s[1..] ==> x in s;
      SumBounded(s[1..], lo, hi);
      assert |s| * lo == (|s| - 1) * lo + lo;
      assert |s| * hi == (|s| - 1) * hi + hi;
    }
  }

  /** A total between n times lo and n times hi, shared out n ways, gives
      each a share between lo and hi. */
  lemma ShareBetween(total: int, n: nat, lo: int, hi: int)
    requires n > 0 && n * lo <= total <= n * hi
    ensures lo as real <= total as real / n as real <= hi as real
  {
    var q := total as real / n as real;
    assert q * (n as real) == total as real;
    assert (n * lo) as real == (n as real) * (lo as real);
    assert (n * hi) as real == (n as real) * (hi as real);
  }

  /** The mean lies between the minimum and the maximum. */
  lemma MeanBetween(s: seq<int>)
    requires |s| > 0
    ensures MinOf(s).value as real <= MeanOf(s).value <= MaxOf(s).value as real
  {
    SumBounded(s, Min(s), Max(s));
    ShareBetween(Sum(s), |s|, Min(s), Max(s));
  }

  ghost predicate Sorted(s: seq<int>)
  {
    forall i, j :: 0 <= i < j < |s| ==> s[i] <= s[j]
  }

  /** `x` put into a sorted list before the first larger-or-equal element. */
  function Insert(x: int, s: seq<int>): (r: seq<int>)
    ensures |r| == |s| + 1
    ensures multiset(r) == multiset(s) + multiset{x}
  {
    if |s| == 0 then [x]
    else if x <= s[0] then [x] + s
    else
      assert s == [s[0]] + s[1..];
      [s[0]] + Insert(x, s[1..])
  }

  lemma {:induction false} InsertSorted(x: int, s: seq<int>)
    requires Sorted(s)
    ensures Sorted(Insert(x, s))
  {
    if |s| > 0 && x > s[0] {
      var rest := Insert(x, s[1..]);
      InsertSorted(x, s[1..]);
      forall j | 0 <= j < |rest| ensures s[0] <= rest[j] {
        assert rest[j] in multiset(rest);
        assert s[1..] == s[1..];
        if rest[j] != x {
          assert rest[j] in multiset(s[1..]);
          var i :| 0 <= i < |s[1..]| && s[1..][i] == rest[j];
          assert s[0] <= s[i + 1];
        }
      }
    }
  }

  /** The values in ascending order: a sorted permutation of the input. */
  function Sort(s: seq<int>): (r: seq<int>)
    ensures |r| == |s|
    ensures multiset(r) == multiset(s)
    ensures Sorted(r)
  {
    if |s| == 0 then []
    else
      assert s == [s[0]] + s[1..];
      InsertSorted(s[0], Sort(s[1..]));
      Insert(s[0], Sort(s[1..]))
  }

  /** The 50th percentile as `percentile_approx` defines it, taken exactly:
      the smallest value such that at least half of the values are at most
      it, i.e. the lower median. */
  function MedianOf(s: seq<int>): (r: Option<int>)
    ensures r.None? <==> |s| == 0
    ensures r.Some? ==> r.value in s
  {
    if |s| == 0 then None
    else
      var sorted := Sort(s);
      assert sorted[(|s| - 1) / 2] in multiset(sorted);
      Some(sorted[(|s| - 1) / 2])
  }

  /** How many values are at most `v`. */
  function CountAtMost(s: seq<int>, v: int): (n: nat)
    ensures n <= |s|
  {
    if |s| == 0 then 0 else (if s[0] <= v then 1 else 0) + CountAtMost(s[1..], v)
  }

  /** How many values are at least `v`. */
  function CountAtLeast(s: seq<int>, v: int): (n: nat)
    ensures n <= |s|
  {
    if |s| == 0 then 0 else (if s[0] >= v then 1 else 0) + CountAtLeast(s[1..], v)
  }

  lemma {:induction false} CountsOfInsert(x: int, s: seq<int>, v: int)
    ensures CountAtMost(Insert(x, s), v) == (if x <= v then 1 else 0) + CountAtMost(s, v)
    ensures CountAtLeast(Insert(x, s), v) == (if x >= v then 1 else 0) + CountAtLeast(s, v)
  {
    if |s| > 0 && x > s[0] {
      CountsOfInsert(x, s[1..], v);
      assert Insert(x, s)[1..] == Insert(x, s[1..]);
    }
  }

  /** Sorting changes no count. */
  lemma {:induction false} CountsOfSort(s: seq<int>, v: int)
    ensures CountAtMost(Sort(s), v) == CountAtMost(s, v)
    ensures CountAtLeast(Sort(s), v) == CountAtLeast(s, v)
  {
    if |s| > 0 {
      CountsOfSort(s[1..], v);
      CountsOfInsert(s[0], Sort(s[1..]), v);
    }
  }

  lemma {:induction false} CountAtMostOfPrefix(s: seq<int>, k: nat, v: int)
    requires k < |s|
    requires forall j :: 0 <= j <= k ==> s[j] <= v
    ensures CountAtMost(s, v) >= k + 1
  {
    if k > 0 {
      CountAtMostOfPrefix(s[1..], k - 1, v);
    }
  }

  lemma {:induction false} CountAtLeastOfSuffix(s: seq<int>, k: nat, v: int)
    requires k <= |s|
    requires forall j :: k <= j < |s| ==> s[j] >= v
    ensures CountAtLeast(s, v) >= |s| - k
  {
    if |s| > 0 {
      CountAtLeastOfSuffix(s[1..], if k > 0 then k - 1 else 0, v);
    }
  }

  lemma SortedSplits(t: seq<int>)
    requires |t| > 0 && Sorted(t)
    ensures CountAtMost(t, t[(|t| - 1) / 2]) >= (|t| + 1) / 2
    ensures CountAtLeast(t, t[(|t| - 1) / 2]) >= |t| / 2 + 1
  {
    var k := (|t| - 1) / 2;
    CountAtMostOfPrefix(t, k, t[k]);
    CountAtLeastOfSuffix(t, k, t[k]);
  }

  /** The median splits the values in half: at least half of them (rounded
      up) are at most it, and more than half of them (rounded down) are at
      least it. */
  lemma MedianSplits(s: seq<int>)
    requires |s| > 0
    ensures CountAtMost(s, MedianOf(s).value) >= (|s| + 1) / 2
    ensures CountAtLeast(s, MedianOf(s).value) >= |s| / 2 + 1
  {
    var sorted := Sort(s);
    SortedSplits(sorted);
    CountsOfSort(s, MedianOf(s).value);
  }

  /** The median lies between the minimum and the maximum. */
  lemma MedianBetween(s: seq<int>)
    requires |s| > 0
    ensures MinOf(s).value <= MedianOf(s).value <= MaxOf(s).value
  {
  }
}
