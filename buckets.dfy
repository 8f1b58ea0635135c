/** The fixed-bucket classification of `classification_count`
    (app/rent_analyse.py:97-135): six half-open ranges cut at five boundaries,
    each counted by its own `where(...).count()` query. */
module Buckets {
  import opened Wrappers
  import opened Cast
  import opened Table

  /** The range [lo, hi); an absent bound leaves that side open. */
  datatype Range = Range(lo: Option<int>, hi: Option<int>)

  /** The query's condition `col >= lo and col < hi`. A null cell satisfies
      no comparison, so it is in no range. */
  predicate InRange(v: Option<int>, r: Range)
  {
    && v.Some?
    && (r.lo.None? || r.lo.value <= v.value)
    && (r.hi.None? || v.value < r.hi.value)
  }

  /** The ranges from `lo` up, cut at each boundary in turn; the last one is
      open above. */
  function RangesFrom(lo: Option<int>, bounds: seq<int>): (rs: seq<Range>)
    ensures |rs| == |bounds| + 1
    ensures forall i :: 0 <= i < |rs| ==>
              rs[i].lo == (if i == 0 then lo else Some(bounds[i - 1]))
    ensures forall i :: 0 <= i < |rs| ==>
              rs[i].hi == (if i < |bounds| then Some(bounds[i]) else None)
    decreases |bounds|
  {
    if |bounds| == 0 then [Range(lo, None)]
    else [Range(lo, Some(bounds[0]))] + RangesFrom(Some(bounds[0]), bounds[1..])
  }

  /** The ranges a boundary list defines, the first one open below. */
  function Ranges(bounds: seq<int>): (rs: seq<Range>)
    ensures |rs| == |bounds| + 1
  {
    RangesFrom(None, bounds)
  }

  const PriceBounds: seq<int> := [500, 800, 1200, 1500, 2000]
  const BuildareaBounds: seq<int> := [50, 70, 90, 120, 150]

  ghost predicate Increasing(bounds: seq<int>)
  {
    forall i, j :: 0 <= i < j < |bounds| ==> bounds[i] < bounds[j]
  }

  /** How many of the ranges hold `v`. */
  function Hits(rs: seq<Range>, v: Option<int>): (n: nat)
    ensures n <= |rs|
    ensures v.None? ==> n == 0
  {
    if |rs| == 0 then 0 else (if InRange(v, rs[0]) then 1 else 0) + Hits(rs[1..], v)
  }

  lemma {:induction false} RangesFromHits(lo: Option<int>, bounds: seq<int>, v: int)
    requires Increasing(bounds)
    requires lo.Some? && |bounds| > 0 ==> lo.value < bounds[0]
    ensures (lo.None? || lo.value <= v) ==> Hits(RangesFrom(lo, bounds), Some(v)) == 1
    ensures (lo.Some? && v < lo.value) ==> Hits(RangesFrom(lo, bounds), Some(v)) == 0
    decreases |bounds|
  {
    var rs := RangesFrom(lo, bounds);
    if |bounds| > 0 {
      RangesFromHits(Some(bounds[0]), bounds[1..], v);
      assert rs[1..] == RangesFrom(Some(bounds[0]), bounds[1..]);
    } else {
      assert rs[1..] == [];
    }
  }

  /** The ranges of an increasing boundary list are disjoint and cover the
      integers: every value lies in exactly one of them. */
  lemma RangesPartition(bounds: seq<int>, v: int)
    requires Increasing(bounds)
    ensures Hits(Ranges(bounds), Some(v)) == 1
  {
    RangesFromHits(None, bounds, v);
  }

  /** `df.where(condition).count()`: the cells in the range. */
  function CountIn(col: seq<Option<int>>, r: Range): (n: nat)
    ensures n <= |col|
    ensures n == 0 <==> forall i :: 0 <= i < |col| ==> !InRange(col[i], r)
    ensures n == |col| <==> forall i :: 0 <= i < |col| ==> InRange(col[i], r)
  {
    if |col| == 0 then 0 else (if InRange(col[0], r) then 1 else 0) + CountIn(col[1..], r)
  }

  /** One count per range, in the ranges' order. */
  function Histogram(col: seq<Option<int>>, rs: seq<Range>): (h: seq<nat>)
    ensures |h| == |rs|
    ensures forall i :: 0 <= i < |rs| ==> h[i] == CountIn(col, rs[i])
  {
    if |rs| == 0 then [] else [CountIn(col, rs[0])] + Histogram(col, rs[1..])
  }

  function Total(h: seq<nat>): nat
  {
    if |h| == 0 then 0 else h[0] + Total(h[1..])
  }

  lemma {:induction false} TotalOfCons(x: Option<int>, col: seq<Option<int>>, rs: seq<Range>)
    ensures Total(Histogram([x] + col, rs)) == Hits(rs, x) + Total(Histogram(col, rs))
  {
    if |rs| > 0 {
      TotalOfCons(x, col, rs[1..]);
      assert ([x] + col)[1..] == col;
    }
  }

  /** When the ranges partition the integers, the counts add up to the number
      of non-null cells: each such cell is counted once and a null one never. */
  lemma {:induction false} HistogramTotal(col: seq<Option<int>>, rs: seq<Range>)
    requires forall v: int :: Hits(rs, Some(v)) == 1
    ensures Total(Histogram(col, rs)) == |NonNull(col)|
  {
    if |col| == 0 {
      EmptyHistogram(rs);
    } else {
      var x, rest := col[0], col[1..];
      HistogramTotal(rest, rs);
      assert col == [x] + rest;
      assert |NonNull(col)| == (if x.Some? then 1 else 0) + |NonNull(rest)| by {
        NonNullOfCons(col);
      }
      assert Total(Histogram(col, rs)) == Hits(rs, x) + Total(Histogram(rest, rs)) by {
        TotalOfCons(x, rest, rs);
      }
      assert Hits(rs, x) == if x.Some? then 1 else 0 by {
        if x.Some? {
          assert Hits(rs, Some(x.value)) == 1;
        }
      }
    }
  }

  lemma NonNullOfCons(col: seq<Option<int>>)
    requires |col| > 0
    ensures |NonNull(col)| == (if col[0].Some? then 1 else 0) + |NonNull(col[1..])|
  {
  }

  lemma {:induction false} EmptyHistogram(rs: seq<Range>)
    ensures Total(Histogram([], rs)) == 0
  {
    if |rs| > 0 {
      EmptyHistogram(rs[1..]);
    }
  }

  /** The six price counts, `<500` up to `>=2000` (app/rent_analyse.py:105-110). */
  function PriceCounts(t: seq<Record>): (h: seq<nat>)
    ensures |h| == 6
    ensures forall i :: 0 <= i < 6 ==> h[i] == CountIn(PriceColumn(t), Ranges(PriceBounds)[i])
    ensures Total(h) == |NonNull(PriceColumn(t))|
  {
    forall v: int ensures Hits(Ranges(PriceBounds), Some(v)) == 1 {
      RangesPartition(PriceBounds, v);
    }
    HistogramTotal(PriceColumn(t), Ranges(PriceBounds));
    Histogram(PriceColumn(t), Ranges(PriceBounds))
  }

  /** The six floor-area counts, `<50` up to `>=150`
      (app/rent_analyse.py:121-126). */
  function BuildareaCounts(t: seq<Record>): (h: seq<nat>)
    ensures |h| == 6
    ensures forall i :: 0 <= i < 6 ==> h[i] == CountIn(BuildareaColumn(t), Ranges(BuildareaBounds)[i])
    ensures Total(h) == |NonNull(BuildareaColumn(t))|
  {
    forall v: int ensures Hits(Ranges(BuildareaBounds), Some(v)) == 1 {
      RangesPartition(BuildareaBounds, v);
    }
    HistogramTotal(BuildareaColumn(t), Ranges(BuildareaBounds));
    Histogram(BuildareaColumn(t), Ranges(BuildareaBounds))
  }

  /** The label a range is meant to carry: "below h", "l-h" or "l and
      above", with the unit after the numbers. */
  function RangeLabel(r: Range, unit: string): string
  {
    match (r.lo, r.hi)
    case (None, Some(h)) => ShowInt(h) + unit + "以下"
    case (Some(l), Some(h)) => ShowInt(l) + "-" + ShowInt(h) + unit
    case (Some(l), None) => ShowInt(l) + unit + "以上"
    case (None, None) => unit
  }

  /** The labels of a boundary list's ranges, in range order. */
  function RangeLabels(bounds: seq<int>, unit: string): (ls: seq<string>)
    ensures |ls| == |bounds| + 1
  {
    var rs := Ranges(bounds);
    seq(|rs|, i requires 0 <= i < |rs| => RangeLabel(rs[i], unit))
  }

  /** Spelled out: "below the first boundary", one "l-h" per pair of
      neighbouring boundaries, "the last boundary and above". */
  lemma RangeLabelsSpelled(bounds: seq<int>, unit: string)
    requires |bounds| > 0
    ensures RangeLabels(bounds, unit)[0] == ShowInt(bounds[0]) + unit + "以下"
    ensures forall i :: 0 < i < |bounds| ==>
              RangeLabels(bounds, unit)[i] == ShowInt(bounds[i - 1]) + "-" + ShowInt(bounds[i]) + unit
    ensures RangeLabels(bounds, unit)[|bounds|] == ShowInt(bounds[|bounds| - 1]) + unit + "以上"
  {
  }

  lemma PriceBoundsSpelled()
    ensures ShowInt(500) == "500" && ShowInt(800) == "800" && ShowInt(1200) == "1200"
    ensures ShowInt(1500) == "1500" && ShowInt(2000) == "2000"
  {
    assert NatDigits(5) == "5" && NatDigits(50) == "50";
    assert NatDigits(8) == "8" && NatDigits(80) == "80";
    assert NatDigits(1) == "1" && NatDigits(12) == "12" && NatDigits(120) == "120";
    assert NatDigits(15) == "15" && NatDigits(150) == "150";
    assert NatDigits(2) == "2" && NatDigits(20) == "20" && NatDigits(200) == "200";
  }

  lemma BuildareaBoundsSpelled()
    ensures ShowInt(50) == "50" && ShowInt(70) == "70" && ShowInt(90) == "90"
    ensures ShowInt(120) == "120" && ShowInt(150) == "150"
  {
    assert NatDigits(5) == "5" && NatDigits(7) == "7" && NatDigits(9) == "9";
    assert NatDigits(1) == "1" && NatDigits(12) == "12" && NatDigits(15) == "15";
  }

  /** The price labels (app/rent_analyse.py:112-117): each names its own
      range. */
  function PriceLabels(): (ls: seq<string>)
    ensures ls == RangeLabels(PriceBounds, "元")
  {
    var ls := ["500元以下", "500-800元", "800-1200元", "1200-1500元", "1500-2000元", "2000元以上"];
    var want := RangeLabels(PriceBounds, "元");
    PriceBoundsSpelled();
    RangeLabelsSpelled(PriceBounds, "元");
    assert want[0] == "500" + "元" + "以下";
    assert want[1] == "500" + "-" + "800" + "元";
    assert want[2] == "800" + "-" + "1200" + "元";
    assert want[3] == "1200" + "-" + "1500" + "元";
    assert want[4] == "1500" + "-" + "2000" + "元";
    assert want[5] == "2000" + "元" + "以上";
    assert ls[0] == want[0] && ls[1] == want[1] && ls[2] == want[2];
    assert ls[3] == want[3] && ls[4] == want[4] && ls[5] == want[5];
    ls
  }

  /** The floor-area labels as the source writes them
      (app/rent_analyse.py:128-133). */
  function BuildareaLabelsAsWritten(): (ls: seq<string>)
    ensures |ls| == |BuildareaBounds| + 1
  {
    ["50m²以下", "50-70m²", "70-80m²", "90-120m²", "120-144m²", "150m²以上"]
  }

  /** Two of the written floor-area labels do not name their ranges: the
      third counts [70, 90) and the fifth [120, 150). */
  lemma BuildareaLabelsAsWrittenMismatch()
    ensures BuildareaLabelsAsWritten()[2] != RangeLabels(BuildareaBounds, "m²")[2]
    ensures BuildareaLabelsAsWritten()[4] != RangeLabels(BuildareaBounds, "m²")[4]
    ensures forall i :: 0 <= i < 6 && i != 2 && i != 4 ==>
              BuildareaLabelsAsWritten()[i] == RangeLabels(BuildareaBounds, "m²")[i]
  {
    var want := BuildareaLabels();
    assert want == ["50m²以下", "50-70m²", "70-90m²", "90-120m²", "120-150m²", "150m²以上"];
    assert "70-80m²"[3] != "70-90m²"[3];
    assert "120-144m²"[5] != "120-150m²"[5];
  }

  /** The floor-area labels corrected: each names its own range. */
  function BuildareaLabels(): (ls: seq<string>)
    ensures ls == RangeLabels(BuildareaBounds, "m²")
  {
    var ls := ["50m²以下", "50-70m²", "70-90m²", "90-120m²", "120-150m²", "150m²以上"];
    var want := RangeLabels(BuildareaBounds, "m²");
    BuildareaBoundsSpelled();
    RangeLabelsSpelled(BuildareaBounds, "m²");
    assert want[0] == "50" + "m²" + "以下";
    assert want[1] == "50" + "-" + "70" + "m²";
    assert want[2] == "70" + "-" + "90" + "m²";
    assert want[3] == "90" + "-" + "120" + "m²";
    assert want[4] == "120" + "-" + "150" + "m²";
    assert want[5] == "150" + "m²" + "以上";
    assert ls[0] == want[0] && ls[1] == want[1] && ls[2] == want[2];
    assert ls[3] == want[3] && ls[4] == want[4] && ls[5] == want[5];
    ls
  }
}
