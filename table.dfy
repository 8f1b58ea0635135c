/** The rental table the analysis reads (`read_data`,
    app/rent_analyse.py:26-35), and the columns the aggregations take from it. */
module Table {
  import opened Wrappers
  import opened Cast

  /** A row as the CSV reader yields it: every cell text, an empty cell
      null. The district is the grouping key and is always present. */
  datatype RawRow = RawRow(address: Option<string>, area: string,
                           price: Option<string>, buildarea: Option<string>)

  /** A row of the loaded table: price and floor area cast to integer, a cell
      that does not cast being null. */
  datatype Record = Record(address: Option<string>, area: string,
                           price: Option<int>, buildarea: Option<int>)

  /** One row cast: only the two numeric cells change, each on its own. */
  function LoadRow(row: RawRow): (r: Record)
    ensures r.address == row.address && r.area == row.area
    ensures r.price == CastInt(row.price) && r.buildarea == CastInt(row.buildarea)
  {
    Record(row.address, row.area, CastInt(row.price), CastInt(row.buildarea))
  }

  /** The loaded table: no row is dropped, whatever its cells hold. */
  function Load(rows: seq<RawRow>): (t: seq<Record>)
    ensures |t| == |rows|
    ensures forall i :: 0 <= i < |rows| ==> t[i] == LoadRow(rows[i])
  {
    if |rows| == 0 then [] else [LoadRow(rows[0])] + Load(rows[1..])
  }

  /** Loading then casting a cell written as a 32-bit integer gives that
      integer back, and an unreadable cell nulls that field of that row only. */
  lemma LoadKeepsReadableCells(rows: seq<RawRow>, i: nat, price: int)
    requires i < |rows| && MinInt32 <= price <= MaxInt32
    requires rows[i].price == Some(ShowInt(price))
    ensures Load(rows)[i] == Record(rows[i].address, rows[i].area, Some(price),
                                    CastInt(rows[i].buildarea))
  {
    ParseShowRoundTrip(price);
    assert CastInt(rows[i].price) == Some(price);
  }

  /** The `area` column. */
  function Areas(t: seq<Record>): (s: seq<string>)
    ensures |s| == |t|
    ensures forall i :: 0 <= i < |t| ==> s[i] == t[i].area
  {
    if |t| == 0 then [] else [t[0].area] + Areas(t[1..])
  }

  /** The `price` column, nulls included. */
  function PriceColumn(t: seq<Record>): (s: seq<Option<int>>)
    ensures |s| == |t|
    ensures forall i :: 0 <= i < |t| ==> s[i] == t[i].price
  {
    if |t| == 0 then [] else [t[0].price] + PriceColumn(t[1..])
  }

  /** The `buildarea` column, nulls included. */
  function BuildareaColumn(t: seq<Record>): (s: seq<Option<int>>)
    ensures |s| == |t|
    ensures forall i :: 0 <= i < |t| ==> s[i] == t[i].buildarea
  {
    if |t| == 0 then [] else [t[0].buildarea] + BuildareaColumn(t[1..])
  }

  /** The non-null values of a column, in table order: what `min`, `max`,
      `mean` and `percentile_approx` aggregate over. */
  function NonNull(col: seq<Option<int>>): (s: seq<int>)
    ensures |s| <= |col|
    ensures |s| == |col| <==> forall i :: 0 <= i < |col| ==> col[i].Some?
    ensures forall x :: x in s <==> Some(x) in col
  {
    if |col| == 0 then []
    else
      var rest := NonNull(col[1..]);
      assert forall x :: x in col <==> x == col[0] || x in col[1..];
      if col[0].None? then rest else [col[0].value] + rest
  }

  /** Each value occurs among the non-null values as often as it occurs,
      wrapped, in the column: nulls are dropped and nothing else is. */
  lemma {:induction false} NonNullCounts(col: seq<Option<int>>)
    ensures forall x :: multiset(NonNull(col))[x] == multiset(col)[Some(x)]
  {
    if |col| > 0 {
      NonNullCounts(col[1..]);
      assert col == [col[0]] + col[1..];
      assert multiset(col) == multiset{col[0]} + multiset(col[1..]);
    }
  }

  /** The rows of one district, in table order (one group of `groupBy("area")`). */
  function RowsIn(t: seq<Record>, area: string): (g: seq<Record>)
    ensures |g| <= |t|
    ensures forall r :: r in g <==> r in t && r.area == area
  {
    if |t| == 0 then []
    else
      var rest := RowsIn(t[1..], area);
      assert forall r :: r in t <==> r == t[0] || r in t[1..];
      if t[0].area == area then [t[0]] + rest else rest
  }

  /** Each row of the district occurs in its group as often as in the table,
      and no other row occurs there. */
  lemma {:induction false} RowsInCounts(t: seq<Record>, area: string)
    ensures forall r :: multiset(RowsIn(t, area))[r] == (if r.area == area then multiset(t)[r] else 0)
  {
    if |t| > 0 {
      RowsInCounts(t[1..], area);
      assert t == [t[0]] + t[1..];
      assert multiset(t) == multiset{t[0]} + multiset(t[1..]);
    }
  }

  /** The district holds a row exactly when its name is in the `area`
      column. */
  lemma {:induction false} RowsInNonEmpty(t: seq<Record>, area: string)
    ensures |RowsIn(t, area)| > 0 <==> area in Areas(t)
  {
    if |t| > 0 {
      RowsInNonEmpty(t[1..], area);
      assert Areas(t) == [t[0].area] + Areas(t[1..]);
    }
  }
}
