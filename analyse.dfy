/** The analysis itself: class `Spark_analyse` of app/rent_analyse.py and its
    four reports. Each report is a function of the loaded table; where the
    engine's row order shows through (the order of `distinct()` and of
    `groupBy` groups), that order is a parameter `order`, constrained only to
    list every district once.

    Functions named `...AsWritten` follow the source line by line, including
    its defects; the others are the corrected reports, in which every
    per-district column follows the ascending district order. */
module RentAnalyse {
  import opened Wrappers
  import opened Ordering
  import opened Table
  import opened Stats
  import opened Grouping
  import opened Buckets

  /** A value of the overall report: the minimum and maximum are integers,
      the mean is exact. */
  datatype Value = IntValue(i: int) | MeanValue(q: real)

  /** One `{"data_type": ..., "value": ...}` entry; a null value is None. */
  datatype Entry = Entry(dataType: string, value: Option<Value>)

  /** `rentals_num`: districts and their row counts, position by position. */
  datatype CountTable = CountTable(area: seq<string>, counts: seq<nat>)

  /** `rent_statistical`: districts and the price statistics of each,
      position by position. */
  datatype Statistical = Statistical(area: seq<string>, min: seq<Option<int>>,
                                     max: seq<Option<int>>, mean: seq<Option<real>>,
                                     median: seq<Option<int>>)

  /** One `{"rent"|"buildarea": label, "value": count}` histogram entry. */
  datatype Bucket = Bucket(caption: string, value: nat)

  /** Both histograms of `classification_count`. */
  datatype Classification = Classification(rentCounts: seq<Bucket>, buildareaCounts: seq<Bucket>)

  function AsReal(v: Value): real
  {
    match v
    case IntValue(i) => i as real
    case MeanValue(q) => q
  }

  /** The non-null prices of some rows. */
  function Prices(rows: seq<Record>): (ps: seq<int>)
    ensures forall x :: x in ps <==> exists r :: r in rows && r.price == Some(x)
  {
    var col := PriceColumn(rows);
    assert forall x :: Some(x) in col <==> exists r :: r in rows && r.price == Some(x) by {
      forall x ensures Some(x) in col ==> exists r :: r in rows && r.price == Some(x) {
        if Some(x) in col {
          var i :| 0 <= i < |col| && col[i] == Some(x);
          assert rows[i] in rows;
        }
      }
    }
    NonNull(col)
  }

  /** Each price occurs in the list as often as the rows carry it. */
  lemma PricesCounts(rows: seq<Record>)
    ensures forall x :: multiset(Prices(rows))[x] == multiset(PriceColumn(rows))[Some(x)]
  {
    NonNullCounts(PriceColumn(rows));
  }

  /** A group has no price exactly when none of its rows has one. */
  lemma PricesEmptyIff(rows: seq<Record>)
    ensures |Prices(rows)| == 0 <==> forall r :: r in rows ==> r.price.None?
  {
    var ps := Prices(rows);
    if |ps| > 0 {
      assert ps[0] in ps;
    }
    if exists r :: r in rows && r.price.Some? {
      var r :| r in rows && r.price.Some?;
      assert r.price.value in ps;
    }
  }

  // ---------------------------------------------------------------- overall

  /** `overall_rent` corrected, over the table's non-null prices `ps`: max,
      avg and min, in that order, each null when there is no price. */
  function OverallRentOf(ps: seq<int>): (r: seq<Entry>)
    ensures |r| == 3
    ensures r[0].dataType == "max" && r[1].dataType == "avg" && r[2].dataType == "min"
    ensures forall k :: 0 <= k < 3 ==> (r[k].value.None? <==> |ps| == 0)
    ensures r[0].value.Some? ==>
              && r[0].value.value.IntValue?
              && r[0].value.value.i in ps
              && forall x :: x in ps ==> x <= r[0].value.value.i
    ensures r[2].value.Some? ==>
              && r[2].value.value.IntValue?
              && r[2].value.value.i in ps
              && forall x :: x in ps ==> r[2].value.value.i <= x
    ensures r[1].value.Some? ==>
              && r[1].value.value.MeanValue?
              && r[1].value.value.q * (|ps| as real) == Sum(ps) as real
  {
    if |ps| == 0 then [Entry("max", None), Entry("avg", None), Entry("min", None)]
    else
      [Entry("max", Some(IntValue(Max(ps)))),
       Entry("avg", Some(MeanValue(MeanOf(ps).value))),
       Entry("min", Some(IntValue(Min(ps))))]
  }

  /** With at least one price, the overall minimum, mean and maximum are in
      order. */
  lemma OverallRentOrdered(ps: seq<int>)
    requires |ps| > 0
    ensures var r := OverallRentOf(ps);
            AsReal(r[2].value.value) <= AsReal(r[1].value.value) <= AsReal(r[0].value.value)
  {
    MeanBetween(ps);
  }

  /** `overall_rent` as written: `round(result[0], 2)` raises when the mean is
      null, i.e. when no row has a price (app/rent_analyse.py:49). */
  function OverallRentAsWritten(t: seq<Record>): (r: Result<seq<Entry>, string>)
    ensures r.Success? ==> |r.value| == 3
  {
    if |Prices(t)| == 0 then Failure("TypeError: round of None")
    else Success(OverallRentOf(Prices(t)))
  }

  /** As written, the report fails on a table without prices, the empty table
      among them; with a price it is the corrected report. */
  lemma OverallRentAsWrittenFailsWithoutPrices(t: seq<Record>)
    ensures OverallRentAsWritten([]).Failure?
    ensures OverallRentAsWritten(t).Failure? <==> |Prices(t)| == 0
    ensures |Prices(t)| > 0 ==> OverallRentAsWritten(t) == Success(OverallRentOf(Prices(t)))
  {
    assert Prices([]) == [];
  }

  // ------------------------------------------------------------ rentals_num

  /** The aggregate `count(*)`: every row of the group, null price or not.
      It is at least the number of prices, and equal to it exactly when every
      row has a price. */
  function RowCount(rows: seq<Record>): (n: nat)
    ensures n >= |Prices(rows)|
    ensures n == |Prices(rows)| <==> forall r :: r in rows ==> r.price.Some?
  {
    var col := PriceColumn(rows);
    assert (forall i :: 0 <= i < |col| ==> col[i].Some?) <==> forall r :: r in rows ==> r.price.Some?;
    |rows|
  }

  /** Group sizes of the given districts, in their order. */
  function GroupSizes(t: seq<Record>, keys: seq<string>): (c: seq<nat>)
    ensures |c| == |keys|
    ensures forall i :: 0 <= i < |keys| ==> c[i] == |RowsIn(t, keys[i])|
  {
    if |keys| == 0 then [] else [|RowsIn(t, keys[0])|] + GroupSizes(t, keys[1..])
  }

  /** How many times `k` occurs in `keys`. */
  function Occurrences(keys: seq<string>, k: string): nat
  {
    if |keys| == 0 then 0 else (if keys[0] == k then 1 else 0) + Occurrences(keys[1..], k)
  }

  lemma {:induction false} OccursOnce(keys: seq<string>, k: string)
    requires forall i, j :: 0 <= i < j < |keys| ==> keys[i] != keys[j]
    requires k in keys
    ensures Occurrences(keys, k) == 1
  {
    if keys[0] == k {
      OccursNot(keys[1..], k);
    } else {
      OccursOnce(keys[1..], k);
    }
  }

  lemma {:induction false} OccursNot(keys: seq<string>, k: string)
    requires k !in keys
    ensures Occurrences(keys, k) == 0
  {
    if |keys| > 0 {
      OccursNot(keys[1..], k);
    }
  }

  lemma {:induction false} GroupSizesOfCons(t: seq<Record>, keys: seq<string>)
    requires |t| > 0
    ensures Total(GroupSizes(t, keys)) == Occurrences(keys, t[0].area) + Total(GroupSizes(t[1..], keys))
  {
    if |keys| > 0 {
      GroupSizesOfCons(t, keys[1..]);
    }
  }

  lemma {:induction false} GroupSizesOfEmpty(keys: seq<string>)
    ensures Total(GroupSizes([], keys)) == 0
  {
    if |keys| > 0 {
      GroupSizesOfEmpty(keys[1..]);
    }
  }

  /** Over districts listed once each and covering the table, the group sizes
      add up to the number of rows: each row is counted exactly once. */
  lemma {:induction false} GroupSizesTotal(t: seq<Record>, keys: seq<string>)
    requires forall i, j :: 0 <= i < j < |keys| ==> keys[i] != keys[j]
    requires forall i :: 0 <= i < |t| ==> t[i].area in keys
    ensures Total(GroupSizes(t, keys)) == |t|
  {
    if |t| == 0 {
      GroupSizesOfEmpty(keys);
    } else {
      GroupSizesTotal(t[1..], keys);
      GroupSizesOfCons(t, keys);
      OccursOnce(keys, t[0].area);
    }
  }

  /** `rentals_num` corrected: the districts in ascending order, each with
      its number of rows, the counts adding up to the table's row count. */
  function RentalsNumOf(t: seq<Record>, order: seq<string>): (r: CountTable)
    requires IsEnumeration(order, t)
    ensures r.area == SortedAreas(t) && StrictlySorted(r.area)
    ensures |r.counts| == |r.area|
    ensures forall i :: 0 <= i < |r.area| ==> r.counts[i] == |RowsIn(t, r.area[i])|
    ensures Total(r.counts) == |t|
  {
    var area := SortedAreas(t);
    var counts := Column(SortByKey(GroupAgg(t, order, RowCount)));
    SortedColumnAligned(t, order, RowCount);
    assert counts == GroupSizes(t, area);
    forall i | 0 <= i < |t| ensures t[i].area in area {
      assert Areas(t)[i] == t[i].area;
    }
    GroupSizesTotal(t, area);
    CountTable(area, counts)
  }

  /** `rentals_num` as written (app/rent_analyse.py:56-64): the `area`
      column is `distinct()`'s list as it came, while position i of the
      sorted counts holds the row count of the i-th district in ascending
      order. */
  function RentalsNumAsWritten(t: seq<Record>, distinctOrder: seq<string>, order: seq<string>): (r: CountTable)
    requires IsEnumeration(distinctOrder, t) && IsEnumeration(order, t)
    ensures r.area == distinctOrder
    ensures |r.counts| == |r.area| == |SortedAreas(t)|
    ensures forall i :: 0 <= i < |r.counts| ==> r.counts[i] == |RowsIn(t, SortedAreas(t)[i])|
  {
    EnumerationsSameLength(distinctOrder, SortedAreas(t), t);
    SortedColumnAligned(t, order, RowCount);
    CountTable(distinctOrder, Column(SortByKey(GroupAgg(t, order, RowCount))))
  }

  /** As written, the report is the corrected one exactly when `distinct()`
      happens to come out in ascending order. */
  lemma RentalsNumAsWrittenAlignedIff(t: seq<Record>, distinctOrder: seq<string>, order: seq<string>)
    requires IsEnumeration(distinctOrder, t) && IsEnumeration(order, t)
    ensures RentalsNumAsWritten(t, distinctOrder, order) == RentalsNumOf(t, order)
            <==> StrictlySorted(distinctOrder)
  {
    AscendingEnumeration(distinctOrder, t);
  }

  /** As written, whenever `distinct()` does not come out in ascending order,
      some position of the report carries one district's name beside the row
      count of another district. */
  lemma RentalsNumAsWrittenMisaligned(t: seq<Record>, distinctOrder: seq<string>, order: seq<string>)
    requires IsEnumeration(distinctOrder, t) && IsEnumeration(order, t)
    requires !StrictlySorted(distinctOrder)
    ensures var r := RentalsNumAsWritten(t, distinctOrder, order);
            exists i :: 0 <= i < |r.area| && r.area[i] != SortedAreas(t)[i]
                        && r.counts[i] == |RowsIn(t, SortedAreas(t)[i])|
  {
    AscendingEnumeration(distinctOrder, t);
    EnumerationsSameLength(distinctOrder, SortedAreas(t), t);
    DifferAt(distinctOrder, SortedAreas(t));
  }

  function Row(area: string, price: Option<int>): Record
  {
    Record(None, area, price, None)
  }

  lemma SortedAreasOfTwo(t: seq<Record>)
    requires Areas(t) == ["A", "B", "B"] || Areas(t) == ["A", "B"]
    ensures SortedAreas(t) == ["A", "B"]
  {
    assert Less("A", "B");
    StrictlySortedUnique(SortedAreas(t), ["A", "B"]);
  }

  /** The three-row table of the example below: one row in "A", two in
      "B". */
  lemma ThreeRows(t: seq<Record>)
    requires t == [Row("A", None), Row("B", None), Row("B", None)]
    ensures SortedAreas(t) == ["A", "B"]
    ensures IsEnumeration(["B", "A"], t) && IsEnumeration(["A", "B"], t)
    ensures |RowsIn(t, "A")| == 1 && |RowsIn(t, "B")| == 2
  {
    ThreeRowsAreas(t);
    assert RowsIn(t[2..], "A") == [] && RowsIn(t[2..], "B") == [t[2]];
    assert RowsIn(t[1..], "A") == [] && RowsIn(t[1..], "B") == [t[1], t[2]];
    assert RowsIn(t, "A") == [t[0]] && RowsIn(t, "B") == [t[1], t[2]];
  }

  lemma ThreeRowsAreas(t: seq<Record>)
    requires t == [Row("A", None), Row("B", None), Row("B", None)]
    ensures SortedAreas(t) == ["A", "B"]
    ensures IsEnumeration(["B", "A"], t) && IsEnumeration(["A", "B"], t)
  {
    assert Areas(t) == ["A", "B", "B"];
    SortedAreasOfTwo(t);
  }

  /** A table where the misalignment shows in the numbers: one row in "A",
      two in "B", and `distinct()` yielding "B" first, so the report pairs
      "B" with 1. */
  lemma RentalsNumAsWrittenExample(t: seq<Record>)
    requires t == [Row("A", None), Row("B", None), Row("B", None)]
    ensures IsEnumeration(["B", "A"], t) && IsEnumeration(["A", "B"], t)
    ensures var r := RentalsNumAsWritten(t, ["B", "A"], ["A", "B"]);
            r.area[0] == "B" && r.counts[0] == 1 && |RowsIn(t, "B")| == 2
  {
    ThreeRows(t);
  }

  // ------------------------------------------------------- rent_statistical

  /** `min(price)` over one district's rows: null exactly when no row has a
      price, otherwise some row's price and at most every row's price. */
  function MinPrice(rows: seq<Record>): (m: Option<int>)
    ensures m.None? <==> forall r :: r in rows ==> r.price.None?
    ensures m.Some? ==> (exists r :: r in rows && r.price == m)
                        && forall r :: r in rows && r.price.Some? ==> m.value <= r.price.value
  {
    PricesEmptyIff(rows);
    MinOf(Prices(rows))
  }

  /** `max(price)` over one district's rows: null exactly when no row has a
      price, otherwise some row's price and at least every row's price. */
  function MaxPrice(rows: seq<Record>): (m: Option<int>)
    ensures m.None? <==> forall r :: r in rows ==> r.price.None?
    ensures m.Some? ==> (exists r :: r in rows && r.price == m)
                        && forall r :: r in rows && r.price.Some? ==> r.price.value <= m.value
  {
    PricesEmptyIff(rows);
    MaxOf(Prices(rows))
  }

  /** `mean(price)` over one district's rows: null exactly when no row has a
      price, otherwise the value that, taken once per priced row, makes up
      their total. */
  function MeanPrice(rows: seq<Record>): (m: Option<real>)
    ensures m.None? <==> forall r :: r in rows ==> r.price.None?
    ensures m.Some? ==> |Prices(rows)| > 0 && m.value == Sum(Prices(rows)) as real / (|Prices(rows)| as real)
  {
    PricesEmptyIff(rows);
    MeanOf(Prices(rows))
  }

  /** `percentile_approx(price, 0.5)` over one district's rows: null exactly
      when no row has a price, otherwise some row's price. */
  function MedianPrice(rows: seq<Record>): (m: Option<int>)
    ensures m.None? <==> forall r :: r in rows ==> r.price.None?
    ensures m.Some? ==> exists r :: r in rows && r.price == m
  {
    PricesEmptyIff(rows);
    MedianOf(Prices(rows))
  }

  /** Every district has at least one row with a price. */
  ghost predicate EveryDistrictPriced(t: seq<Record>)
  {
    forall a :: a in Areas(t) ==> |Prices(RowsIn(t, a))| > 0
  }

  /** `rent_statistical` corrected: the districts in ascending order, and at
      each position the minimum, maximum, mean and median price of that very
      district, however the engine ordered each pass's groups. */
  function RentStatisticalOf(t: seq<Record>, order: seq<string>): (r: Statistical)
    requires IsEnumeration(order, t)
    ensures r.area == SortedAreas(t) && StrictlySorted(r.area)
    ensures |r.min| == |r.max| == |r.mean| == |r.median| == |r.area|
    ensures forall i :: 0 <= i < |r.area| ==>
              var ps := Prices(RowsIn(t, r.area[i]));
              r.min[i] == MinOf(ps) && r.max[i] == MaxOf(ps) &&
              r.mean[i] == MeanOf(ps) && r.median[i] == MedianOf(ps)
  {
    SortedColumnAligned(t, order, MinPrice);
    SortedColumnAligned(t, order, MaxPrice);
    SortedColumnAligned(t, order, MeanPrice);
    SortedColumnAligned(t, order, MedianPrice);
    Statistical(SortedAreas(t),
                Column(SortByKey(GroupAgg(t, order, MinPrice))),
                Column(SortByKey(GroupAgg(t, order, MaxPrice))),
                Column(SortByKey(GroupAgg(t, order, MeanPrice))),
                Column(SortByKey(GroupAgg(t, order, MedianPrice))))
  }

  /** In every district with a price, minimum <= median <= maximum and
      minimum <= mean <= maximum; in a district without one, all four are
      null. */
  lemma RentStatisticalOrdered(t: seq<Record>, order: seq<string>, i: nat)
    requires IsEnumeration(order, t)
    requires i < |SortedAreas(t)|
    ensures var r := RentStatisticalOf(t, order);
            var ps := Prices(RowsIn(t, r.area[i]));
            && (|ps| == 0 ==> r.min[i].None? && r.max[i].None? && r.mean[i].None? && r.median[i].None?)
            && (|ps| > 0 ==>
                  && r.min[i].Some? && r.max[i].Some? && r.mean[i].Some? && r.median[i].Some?
                  && r.min[i].value as real <= r.mean[i].value <= r.max[i].value as real
                  && r.min[i].value <= r.median[i].value <= r.max[i].value)
  {
    var r := RentStatisticalOf(t, order);
    var ps := Prices(RowsIn(t, r.area[i]));
    if |ps| > 0 {
      MeanBetween(ps);
      MedianBetween(ps);
    }
  }

  /** The mean column contains a null exactly when some district has no
      price. */
  lemma MeansNullIff(t: seq<Record>, order: seq<string>)
    requires IsEnumeration(order, t)
    ensures None in Column(SortByKey(GroupAgg(t, order, MeanPrice))) <==> !EveryDistrictPriced(t)
  {
    SortedColumnAligned(t, order, MeanPrice);
    MeansNullIffAligned(t, SortedAreas(t), Column(SortByKey(GroupAgg(t, order, MeanPrice))));
  }

  lemma MeansNullIffAligned(t: seq<Record>, s: seq<string>, c: seq<Option<real>>)
    requires IsEnumeration(s, t) && |c| == |s|
    requires forall i :: 0 <= i < |s| ==> c[i] == MeanPrice(RowsIn(t, s[i]))
    ensures None in c <==> !EveryDistrictPriced(t)
  {
    if None in c {
      var i :| 0 <= i < |c| && c[i] == None;
      assert s[i] in Areas(t);
      assert |Prices(RowsIn(t, s[i]))| == 0;
    }
    if !EveryDistrictPriced(t) {
      var a :| a in Areas(t) && |Prices(RowsIn(t, a))| == 0;
      assert a in s;
      var i :| 0 <= i < |s| && s[i] == a;
      assert c[i] == None;
    }
  }

  /** `rent_statistical` as written (app/rent_analyse.py:67-94). It fails,
      as `round(None, 2)` raises, exactly when some district has no price.
      Otherwise the `area` column is `distinct()`'s list as it came; position
      i of the sorted min, max and mean columns belongs to the i-th district
      in ascending order, and position i of the unsorted median column to the
      i-th group the engine produced. */
  function RentStatisticalAsWritten(t: seq<Record>, distinctOrder: seq<string>,
                                    order: seq<string>): (r: Result<Statistical, string>)
    requires IsEnumeration(distinctOrder, t) && IsEnumeration(order, t)
    ensures r.Failure? <==> !EveryDistrictPriced(t)
    ensures r.Success? ==> r.value.area == distinctOrder
    ensures r.Success? ==>
              |r.value.min| == |r.value.max| == |r.value.mean| == |r.value.median|
              == |r.value.area| == |SortedAreas(t)| == |order|
    ensures r.Success? ==>
              forall i :: 0 <= i < |SortedAreas(t)| ==>
                var ps := Prices(RowsIn(t, SortedAreas(t)[i]));
                r.value.min[i] == MinOf(ps) && r.value.max[i] == MaxOf(ps) && r.value.mean[i] == MeanOf(ps)
    ensures r.Success? ==>
              forall i :: 0 <= i < |order| ==> r.value.median[i] == MedianOf(Prices(RowsIn(t, order[i])))
  {
    EnumerationsSameLength(distinctOrder, SortedAreas(t), t);
    EnumerationsSameLength(order, SortedAreas(t), t);
    MeansNullIff(t, order);
    SortedColumnAligned(t, order, MinPrice);
    SortedColumnAligned(t, order, MaxPrice);
    SortedColumnAligned(t, order, MeanPrice);
    var means := Column(SortByKey(GroupAgg(t, order, MeanPrice)));
    if None in means then Failure("TypeError: round of None")
    else Success(Statistical(distinctOrder,
                             Column(SortByKey(GroupAgg(t, order, MinPrice))),
                             Column(SortByKey(GroupAgg(t, order, MaxPrice))),
                             means,
                             Column(GroupAgg(t, order, MedianPrice))))
  }

  /** As written, a district all of whose rows lack a price makes the report
      fail. */
  lemma RentStatisticalAsWrittenFailsOnPricelessDistrict(t: seq<Record>, distinctOrder: seq<string>,
                                                         order: seq<string>, a: string)
    requires IsEnumeration(distinctOrder, t) && IsEnumeration(order, t)
    requires a in Areas(t)
    requires forall r :: r in RowsIn(t, a) ==> r.price.None?
    ensures RentStatisticalAsWritten(t, distinctOrder, order).Failure?
  {
    PricesEmptyIff(RowsIn(t, a));
  }

  /** As written, when every district has a price and both `distinct()` and
      the median pass happen to come out in ascending order, the report is
      the corrected one. */
  lemma RentStatisticalAsWrittenAgreesWhenAscending(t: seq<Record>, distinctOrder: seq<string>,
                                                    order: seq<string>)
    requires IsEnumeration(distinctOrder, t) && IsEnumeration(order, t)
    requires EveryDistrictPriced(t)
    requires StrictlySorted(distinctOrder) && StrictlySorted(order)
    ensures RentStatisticalAsWritten(t, distinctOrder, order) == Success(RentStatisticalOf(t, order))
  {
    AscendingEnumeration(distinctOrder, t);
    AscendingEnumeration(order, t);
    var r := RentStatisticalAsWritten(t, distinctOrder, order).value;
    var q := RentStatisticalOf(t, order);
    assert r.min == q.min && r.max == q.max && r.mean == q.mean && r.median == q.median;
  }

  /** As written, whenever `distinct()` does not come out in ascending order
      and the report succeeds, some position carries one district's name
      beside the minimum, maximum and mean of another district. */
  lemma RentStatisticalAsWrittenAreaMisaligned(t: seq<Record>, distinctOrder: seq<string>,
                                               order: seq<string>)
    requires IsEnumeration(distinctOrder, t) && IsEnumeration(order, t)
    requires EveryDistrictPriced(t)
    requires !StrictlySorted(distinctOrder)
    ensures var r := RentStatisticalAsWritten(t, distinctOrder, order);
            && r.Success?
            && exists i :: 0 <= i < |r.value.area| && r.value.area[i] != SortedAreas(t)[i]
                 && var ps := Prices(RowsIn(t, SortedAreas(t)[i]));
                    r.value.min[i] == MinOf(ps) && r.value.max[i] == MaxOf(ps) && r.value.mean[i] == MeanOf(ps)
  {
    AscendingEnumeration(distinctOrder, t);
    EnumerationsSameLength(distinctOrder, SortedAreas(t), t);
    DifferAt(distinctOrder, SortedAreas(t));
  }

  /** As written, whenever the median pass does not come out in ascending
      order and the report succeeds, some position holds the median of one
      district beside the minimum, maximum and mean of another. */
  lemma RentStatisticalAsWrittenMedianMisaligned(t: seq<Record>, distinctOrder: seq<string>,
                                                 order: seq<string>)
    requires IsEnumeration(distinctOrder, t) && IsEnumeration(order, t)
    requires EveryDistrictPriced(t)
    requires !StrictlySorted(order)
    ensures var r := RentStatisticalAsWritten(t, distinctOrder, order);
            && r.Success?
            && exists i :: 0 <= i < |order| && order[i] != SortedAreas(t)[i]
                 && r.value.median[i] == MedianOf(Prices(RowsIn(t, order[i])))
                 && r.value.min[i] == MinOf(Prices(RowsIn(t, SortedAreas(t)[i])))
  {
    AscendingEnumeration(order, t);
    EnumerationsSameLength(order, SortedAreas(t), t);
    DifferAt(order, SortedAreas(t));
  }

  /** The two-district table of the example below: "A" with price 100, "B"
      with price 300. */
  lemma TwoDistricts(t: seq<Record>)
    requires t == [Row("A", Some(100)), Row("B", Some(300))]
    ensures SortedAreas(t) == ["A", "B"]
    ensures IsEnumeration(["A", "B"], t) && IsEnumeration(["B", "A"], t)
    ensures Prices(RowsIn(t, "A")) == [100] && Prices(RowsIn(t, "B")) == [300]
    ensures EveryDistrictPriced(t)
  {
    TwoDistrictsAreas(t);
    assert RowsIn(t[1..], "A") == [] && RowsIn(t[1..], "B") == [t[1]];
    assert RowsIn(t, "A") == [t[0]] && RowsIn(t, "B") == [t[1]];
    assert PriceColumn([t[0]]) == [Some(100)];
    assert PriceColumn([t[1]]) == [Some(300)];
  }

  lemma TwoDistrictsAreas(t: seq<Record>)
    requires t == [Row("A", Some(100)), Row("B", Some(300))]
    ensures Areas(t) == ["A", "B"]
    ensures SortedAreas(t) == ["A", "B"]
    ensures IsEnumeration(["A", "B"], t) && IsEnumeration(["B", "A"], t)
  {
    assert Areas(t) == ["A", "B"];
    SortedAreasOfTwo(t);
  }

  /** The area misalignment in numbers: on a table where "A" is priced 100
      and "B" 300, with `distinct()` yielding "B" first, "B" is shown with
      minimum 100. */
  lemma RentStatisticalAsWrittenAreaExample(t: seq<Record>)
    requires t == [Row("A", Some(100)), Row("B", Some(300))]
    ensures IsEnumeration(["A", "B"], t) && IsEnumeration(["B", "A"], t)
    ensures var r := RentStatisticalAsWritten(t, ["B", "A"], ["A", "B"]);
            r.Success? && r.value.area[0] == "B" && r.value.min[0] == Some(100)
  {
    TwoDistricts(t);
    assert MinOf([100]) == Some(100);
  }

  /** The median misalignment in numbers: on the same table, with the median
      pass yielding "B" first, "A" is shown with median 300. */
  lemma RentStatisticalAsWrittenMedianExample(t: seq<Record>)
    requires t == [Row("A", Some(100)), Row("B", Some(300))]
    ensures IsEnumeration(["A", "B"], t) && IsEnumeration(["B", "A"], t)
    ensures var r := RentStatisticalAsWritten(t, ["A", "B"], ["B", "A"]);
            r.Success? && r.value.area[0] == "A" && r.value.median[0] == Some(300)
  {
    TwoDistricts(t);
    assert Sort([300]) == [300];
  }

  // --------------------------------------------------- classification_count

  /** Labels paired with counts, position by position. */
  function Zip(labels: seq<string>, counts: seq<nat>): (b: seq<Bucket>)
    requires |labels| == |counts|
    ensures |b| == |labels|
    ensures forall i :: 0 <= i < |b| ==> b[i] == Bucket(labels[i], counts[i])
  {
    seq(|labels|, i requires 0 <= i < |labels| => Bucket(labels[i], counts[i]))
  }

  /** The price half of `classification_count`: six buckets, each labelled
      with its own range and counting the prices in it. */
  function PriceBuckets(t: seq<Record>): (b: seq<Bucket>)
    ensures |b| == 6
    ensures forall i :: 0 <= i < 6 ==>
              b[i] == Bucket(RangeLabels(PriceBounds, "元")[i],
                             CountIn(PriceColumn(t), Ranges(PriceBounds)[i]))
    ensures Total(Values(b)) == |NonNull(PriceColumn(t))|
  {
    var counts := PriceCounts(t);
    var b := Zip(PriceLabels(), counts);
    assert Values(b) == counts by {
      assert forall i :: 0 <= i < 6 ==> Values(b)[i] == counts[i];
    }
    b
  }

  /** The floor-area half of `classification_count`, with the labels
      corrected. */
  function BuildareaBuckets(t: seq<Record>): (b: seq<Bucket>)
    ensures |b| == 6
    ensures forall i :: 0 <= i < 6 ==>
              b[i] == Bucket(RangeLabels(BuildareaBounds, "m²")[i],
                             CountIn(BuildareaColumn(t), Ranges(BuildareaBounds)[i]))
    ensures Total(Values(b)) == |NonNull(BuildareaColumn(t))|
  {
    var counts := BuildareaCounts(t);
    var b := Zip(BuildareaLabels(), counts);
    assert Values(b) == counts by {
      assert forall i :: 0 <= i < 6 ==> Values(b)[i] == counts[i];
    }
    b
  }

  /** `classification_count` corrected: the price and floor-area histograms,
      each adding up to the number of rows with a value in that column. */
  function ClassificationOf(t: seq<Record>): (r: Classification)
    ensures |r.rentCounts| == 6 && |r.buildareaCounts| == 6
    ensures Total(Values(r.rentCounts)) == |NonNull(PriceColumn(t))|
    ensures Total(Values(r.buildareaCounts)) == |NonNull(BuildareaColumn(t))|
  {
    Classification(PriceBuckets(t), BuildareaBuckets(t))
  }

  /** The counts of a histogram, in order. */
  function Values(b: seq<Bucket>): (c: seq<nat>)
    ensures |c| == |b|
    ensures forall i :: 0 <= i < |b| ==> c[i] == b[i].value
  {
    seq(|b|, i requires 0 <= i < |b| => b[i].value)
  }

  // ------------------------------------------------------------ the class

  /** `Spark_analyse`: the loaded table, its row count and its district
      list, fixed once at construction (app/rent_analyse.py:11-16). */
  class SparkAnalyse {
    const df: seq<Record>
    const dataNum: nat
    const areas: seq<string>

    /** What `__init__` establishes: the row count is that of the loaded
        table and `areas` lists its districts in ascending order. */
    ghost predicate Valid()
    {
      dataNum == |df| && areas == SortedAreas(df)
    }

    /** `__init__` with `read_data` and `get_areas`: the cast table, its row
        count taken after the cast, and the districts in ascending order. */
    constructor (rows: seq<RawRow>)
      ensures Valid()
      ensures df == Load(rows) && dataNum == |rows|
    {
      df := Load(rows);
      dataNum := |Load(rows)|;
      areas := SortedAreas(Load(rows));
    }

    /** `overall_rent`, corrected to report nulls instead of raising. */
    method OverallRent() returns (r: seq<Entry>)
      ensures r == OverallRentOf(Prices(df))
      ensures |Prices(df)| > 0 ==>
                AsReal(r[2].value.value) <= AsReal(r[1].value.value) <= AsReal(r[0].value.value)
    {
      r := OverallRentOf(Prices(df));
      if |Prices(df)| > 0 {
        OverallRentOrdered(Prices(df));
      }
    }

    /** `rentals_num`: one count per district of `areas`, adding up to
        `data_num`. */
    method RentalsNum(order: seq<string>) returns (r: CountTable)
      requires Valid() && IsEnumeration(order, df)
      ensures r.area == areas && |r.counts| == |areas|
      ensures forall i :: 0 <= i < |areas| ==> r.counts[i] == |RowsIn(df, areas[i])|
      ensures Total(r.counts) == dataNum
    {
      var number := CountTable(areas, []);
      var full := RentalsNumOf(df, order);
      number := number.(counts := full.counts);
      r := number;
    }

    /** `rent_statistical`: every column aligned with `areas`. */
    method RentStatistical(order: seq<string>) returns (r: Statistical)
      requires Valid() && IsEnumeration(order, df)
      ensures r == RentStatisticalOf(df, order) && r.area == areas
    {
      r := RentStatisticalOf(df, order);
    }

    /** `classification_count`. */
    method ClassificationCount() returns (r: Classification)
      ensures r == ClassificationOf(df)
      ensures Total(Values(r.rentCounts)) == |NonNull(PriceColumn(df))|
      ensures Total(Values(r.buildareaCounts)) == |NonNull(BuildareaColumn(df))|
    {
      r := ClassificationOf(df);
    }
  }
}
