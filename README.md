# Rent analysis: a verified model of `Spark_analyse`

This project models the analysis stage of a rental-listing scraper. That stage
is class `Spark_analyse` in `app/rent_analyse.py`. It loads the scraped
listings (address, district, monthly price, floor area) into a table. Price and
floor area are cast to 32-bit integers. From the table it computes four
reports:

- `overall_rent`: maximum, mean and minimum price.
- `rentals_num`: the number of listings per district.
- `rent_statistical`: minimum, maximum, mean and median price per district.
- `classification_count`: two fixed-bucket histograms, one by price and one by
  floor area.

The query engine is modelled by its semantics:

- A cell that does not cast becomes null. Null cells are skipped by `min`,
  `max`, `mean` and the percentile. They are still counted by `count(*)`, and
  a range condition on a null is false.
- The engine does not specify the order of `distinct()` or of `groupBy`
  groups. Every function that depends on it takes the order as a parameter.
  That parameter only has to list each district once (`Grouping.IsEnumeration`).

The central property is alignment. The per-district reports are built from
several independent aggregate passes and zipped by position. So they are only
right if every pass comes out in the same district order. `Grouping.SortedGroupsIndependent`
proves that Python's `sorted` over a pass gives the aggregates in ascending
district order, whatever order the engine produced. The corrected reports
`RentalsNumOf` and `RentStatisticalOf` are built on it. The source does not
sort everywhere, and the `...AsWritten` members show what goes wrong (see
Findings).

Layout:

- `wrappers.dfy`: `Option`, `Result`.
- `ordering.dfy`: Python's string order, which `sorted` uses.
- `cast.dfy`: the string-to-int cast.
- `table.dfy`: loading and columns.
- `stats.dfy`: the SQL aggregates.
- `grouping.dfy`: `groupBy` followed by `sorted`.
- `buckets.dfy`: the histograms.
- `analyse.dfy`: the four reports and class `SparkAnalyse`.

Modelling choices:

- The loader keeps every row. A cell that does not cast is nulled.
- A negative price is not rejected; the cast accepts it like any other integer.
- A histogram entry's label field is called `caption`. The source keys it
  `rent` in the price histogram and `buildarea` in the floor-area one.
- `classification_count` returns nothing; it saves both histograms. The model
  returns what it saves.
- Members named `...AsWritten` follow the code, defects included. The `...Of`
  functions and class `SparkAnalyse` follow the behaviour the code evidently
  intends, as listed under Findings: `areas` in ascending order, a null
  reported where the code crashes on one, and floor-area labels that name
  their ranges.

## Model

| member | source | states |
|---|---|---|
| Cast.TrimLeft | app/rent_analyse.py:30-31 | the left trim is no longer than the cell and, when non-empty, starts with a non-blank character |
| Cast.TrimRight | app/rent_analyse.py:30-31 | the right trim is no longer than the cell, keeps its first character and, when non-empty, ends with a non-blank character |
| Cast.Trim | app/rent_analyse.py:30-31 | the trimmed text is no longer than the cell and starts and ends with a non-blank character |
| Cast.TrimLeftRemovesOnlyBlanks | app/rent_analyse.py:30-31 | the cell is a run of blanks followed by its left trim |
| Cast.TrimRightRemovesOnlyBlanks | app/rent_analyse.py:30-31 | the cell is its right trim followed by a run of blanks |
| Cast.TrimRemovesOnlyBlanks | app/rent_analyse.py:30-31 | the cell is blanks, then its trimmed text, then blanks: the trim removes nothing but blanks |
| Cast.TrimOfPadded | app/rent_analyse.py:30-31 | blanks around a text with non-blank ends are exactly what the trim removes |
| Cast.ParseInt | app/rent_analyse.py:30-31 | a cell casts only when its trimmed text is non-empty, and then to a value within the 32-bit range |
| Cast.ParseUnsigned | app/rent_analyse.py:30-31 | the text after the sign reads, if at all, as a value within the 32-bit range |
| Cast.SignedValue | app/rent_analyse.py:30-31 | a digit string's signed value is kept only when it lies within the 32-bit range |
| Cast.ParseOfDigits | app/rent_analyse.py:30-31 | digits followed by an optional '.' and digits read as the digits' signed value; the fraction is dropped |
| Cast.ParseOfTrimmed | app/rent_analyse.py:30-31 | a cell whose trimmed text is a sign, digits and an optional fraction casts to the signed value of the digits |
| Cast.ParseIntAccepts | app/rent_analyse.py:30-31 | blanks, an optional sign, digits, an optional '.' with digits, then blanks cast to the signed whole part when it fits in 32 bits and to null otherwise |
| Cast.CastInt | app/rent_analyse.py:30-31 | an empty cell casts to null, and a value that casts is within the 32-bit range |
| Cast.ParseShowRoundTrip | app/rent_analyse.py:30-31 | a cell holding the decimal spelling of any 32-bit integer casts back to that integer |
| Cast.ParseIntRejectsForeignCharacter | app/rent_analyse.py:30-31 | text holding a character other than a digit, a sign or a point between its ends casts to null |
| Table.LoadRow | app/rent_analyse.py:30-31 | casting changes only the price and floor-area cells, each on its own |
| Table.Load | app/rent_analyse.py:26-35 | the loaded table keeps every row, in order, each row cast |
| Table.LoadKeepsReadableCells | app/rent_analyse.py:30-31 | a row whose price reads as a 32-bit integer keeps that price, and an unreadable floor area nulls nothing else |
| Table.Areas | app/rent_analyse.py:39-40 | the `area` column has one entry per row, the row's district |
| Table.PriceColumn | app/rent_analyse.py:46 | the `price` column has one entry per row, nulls included |
| Table.BuildareaColumn | app/rent_analyse.py:121-126 | the `buildarea` column has one entry per row, nulls included |
| Table.NonNull | app/rent_analyse.py:46 | a value is aggregated exactly when some cell of the column holds it, and no cell is dropped exactly when none is null |
| Table.NonNullCounts | app/rent_analyse.py:46 | each value is aggregated as many times as cells hold it |
| Table.RowsIn | app/rent_analyse.py:59 | a district's group holds exactly the rows of the table with that district |
| Table.RowsInCounts | app/rent_analyse.py:59 | each row of the district occurs in its group as many times as in the table, and no other row occurs |
| Table.RowsInNonEmpty | app/rent_analyse.py:59 | a district has rows exactly when it occurs in the `area` column |
| Ordering.Less | app/rent_analyse.py:60 | Python's string order: the first differing character decides by code point, and a proper prefix sorts first |
| Ordering.LessIrreflexive | app/rent_analyse.py:60 | no name sorts before itself |
| Ordering.LessAsymmetric | app/rent_analyse.py:60 | two names never sort before each other |
| Ordering.LessTransitive | app/rent_analyse.py:60 | the name order is transitive |
| Ordering.LessTotal | app/rent_analyse.py:60 | any two different names are ordered one way or the other |
| Ordering.StrictlySortedDistinct | app/rent_analyse.py:60 | a strictly ascending list repeats no name |
| Ordering.StrictlySortedUnique | app/rent_analyse.py:60 | a set of names has only one ascending arrangement |
| Grouping.IsEnumeration | app/rent_analyse.py:39-40 | what `distinct()` and `groupBy` yield: every district of the table, each exactly once, in some order |
| Grouping.EnumerationsSameLength | app/rent_analyse.py:39-40 | every listing of the districts without repeats has the same length |
| Grouping.AscendingEnumeration | app/rent_analyse.py:39-40 | a listing of the districts is ascending exactly when it is the ascending district list |
| Grouping.SortedDistinct | app/rent_analyse.py:39-40 | the distinct names, strictly ascending, with exactly the input's names |
| Grouping.SortedAreas | app/rent_analyse.py:38-41 | the districts of the table, each once, strictly ascending |
| Grouping.GroupAgg | app/rent_analyse.py:59-60 | one aggregate pass in a given group order: one pair per group, each district beside the aggregate of its own rows |
| Grouping.Column | app/rent_analyse.py:61 | `[row[1] for row in rows]` keeps the length and takes, at each position, that row's aggregate |
| Grouping.SortByKey | app/rent_analyse.py:60 | sorting keeps exactly the same grouped rows, each as many times as before |
| Grouping.SortByKeySorted | app/rent_analyse.py:60 | with distinct districts, the sorted rows are strictly ascending by district |
| Grouping.SortedByKeyUnique | app/rent_analyse.py:60 | two district-sorted lists holding the same rows are equal |
| Grouping.GroupAggRows | app/rent_analyse.py:59-60 | one aggregate pass holds exactly the (district, aggregate of its rows) pairs |
| Grouping.SortedGroupsIndependent | app/rent_analyse.py:70-73 | a sorted pass equals the aggregates over the districts in ascending order, for every engine group order |
| Grouping.SortedColumnAligned | app/rent_analyse.py:71-73 | position i of every sorted aggregate column belongs to the i-th district in ascending order |
| Stats.Min | app/rent_analyse.py:46 | the least value is one of the values and at most each of them |
| Stats.Max | app/rent_analyse.py:46 | the greatest value is one of the values and at least each of them |
| Stats.MinOf | app/rent_analyse.py:46 | SQL `min` is null exactly over no values, and otherwise a least value |
| Stats.MaxOf | app/rent_analyse.py:46 | SQL `max` is null exactly over no values, and otherwise a greatest value |
| Stats.MeanOf | app/rent_analyse.py:46 | SQL `mean` is null exactly over no values, and otherwise times the count gives the sum |
| Stats.MeanBetween | app/rent_analyse.py:46 | the mean lies between the minimum and the maximum |
| Stats.Sort | app/rent_analyse.py:76 | sorting gives an ascending permutation of the values |
| Stats.MedianOf | app/rent_analyse.py:76-77 | the 50th percentile is null exactly over no values, and otherwise one of the values |
| Stats.MedianSplits | app/rent_analyse.py:76-77 | at least half the values (rounded up) are at most the median, and more than half (rounded down) are at least it |
| Stats.MedianBetween | app/rent_analyse.py:76-77 | the median lies between the minimum and the maximum |
| Buckets.InRange | app/rent_analyse.py:105-110 | the query condition: a cell is in a range when it is non-null, at least the lower bound and below the upper bound |
| Buckets.CountIn | app/rent_analyse.py:105-110 | `where(...).count()` is at most the number of cells, zero exactly when no cell is in the range, and all of them exactly when every cell is |
| Buckets.RangesPartition | app/rent_analyse.py:105-110 | the six ranges cut at increasing boundaries hold every integer exactly once |
| Buckets.Histogram | app/rent_analyse.py:105-110 | bucket i counts the cells lying in range i |
| Buckets.HistogramTotal | app/rent_analyse.py:105-110 | over partitioning ranges, the bucket counts add up to the number of non-null cells |
| Buckets.PriceCounts | app/rent_analyse.py:105-110 | six price counts, bucket i counting the prices in range i, adding up to the number of rows with a price |
| Buckets.BuildareaCounts | app/rent_analyse.py:121-126 | six floor-area counts, bucket i counting the areas in range i, adding up to the number of rows with an area |
| Buckets.RangeLabelsSpelled | app/rent_analyse.py:99-104 | the labels read "below the first bound", "l-h" for each pair of neighbouring bounds, and "last bound and above" |
| Buckets.PriceLabels | app/rent_analyse.py:111-118 | each written price label names the range its count covers |
| Buckets.BuildareaLabelsAsWritten | app/rent_analyse.py:127-134 | the written floor-area labels, one per range |
| Buckets.BuildareaLabelsAsWrittenMismatch | app/rent_analyse.py:127-134 | the third and fifth written labels do not name their ranges, and the other four do |
| Buckets.BuildareaLabels | app/rent_analyse.py:127-134 | the corrected floor-area labels each name the range their count covers |
| RentAnalyse.Prices | app/rent_analyse.py:46 | a value is among the prices exactly when some row carries it |
| RentAnalyse.PricesCounts | app/rent_analyse.py:46 | each price occurs among the prices as many times as rows carry it |
| RentAnalyse.PricesEmptyIff | app/rent_analyse.py:71-73 | a group has no price exactly when none of its rows has one |
| RentAnalyse.OverallRentOf | app/rent_analyse.py:44-53 | max, avg, min in that order; each null exactly when there is no price; max and min are prices bounding all prices; avg times the count is the sum |
| RentAnalyse.OverallRentOrdered | app/rent_analyse.py:46-51 | with a price, min <= avg <= max |
| RentAnalyse.OverallRentAsWritten | app/rent_analyse.py:44-53 | the written report, where it succeeds, has three entries |
| RentAnalyse.OverallRentAsWrittenFailsWithoutPrices | app/rent_analyse.py:49 | the written report fails exactly when no row has a price, the empty table among them, and otherwise equals the corrected one |
| RentAnalyse.RowCount | app/rent_analyse.py:60 | `count(*)` is at least the number of prices, and equal to it exactly when every row of the group has a price |
| RentAnalyse.GroupSizes | app/rent_analyse.py:59-61 | position i holds the number of rows of the i-th listed district |
| RentAnalyse.GroupSizesTotal | app/rent_analyse.py:56-64 | over districts listed once each and covering the table, the group sizes add up to the row count |
| RentAnalyse.RentalsNumOf | app/rent_analyse.py:56-64 | districts in ascending order, each beside its own row count, the counts adding up to the row count |
| RentAnalyse.RentalsNumAsWritten | app/rent_analyse.py:56-64 | the `area` column is `distinct()`'s list as it came, while position i of the counts holds the row count of the i-th district in ascending order |
| RentAnalyse.RentalsNumAsWrittenAlignedIff | app/rent_analyse.py:58-62 | the written report is the corrected one exactly when `distinct()` comes out in ascending order |
| RentAnalyse.RentalsNumAsWrittenMisaligned | app/rent_analyse.py:58-62 | whenever `distinct()` is not ascending, some position names one district beside the row count of another |
| RentAnalyse.RentalsNumAsWrittenExample | app/rent_analyse.py:58-62 | on the table with rows in "A", "B", "B" and `distinct()` yielding "B" first, "B" is reported with 1 row although it has 2 |
| RentAnalyse.MinPrice | app/rent_analyse.py:71 | a district's `min(price)` is null exactly when none of its rows has a price, and otherwise one row's price, at most every row's price |
| RentAnalyse.MaxPrice | app/rent_analyse.py:72 | a district's `max(price)` is null exactly when none of its rows has a price, and otherwise one row's price, at least every row's price |
| RentAnalyse.MeanPrice | app/rent_analyse.py:73 | a district's `mean(price)` is null exactly when none of its rows has a price, and otherwise the total of its prices over their number |
| RentAnalyse.MedianPrice | app/rent_analyse.py:76-77 | a district's percentile is null exactly when none of its rows has a price, and otherwise one row's price |
| RentAnalyse.RentStatisticalOf | app/rent_analyse.py:67-94 | districts in ascending order; at each position the min, max, mean and median of that district's prices, for every engine order |
| RentAnalyse.RentStatisticalOrdered | app/rent_analyse.py:71-84 | per district, all four statistics are null without a price; with one, min <= mean <= max and min <= median <= max |
| RentAnalyse.MeansNullIff | app/rent_analyse.py:73-83 | the sorted mean column holds a null exactly when some district has no price |
| RentAnalyse.RentStatisticalAsWritten | app/rent_analyse.py:67-94 | fails exactly when some district has no price; otherwise `area` is `distinct()`'s list as it came, min, max and mean at i belong to the i-th district in ascending order, and the median at i to the i-th group of the unsorted pass |
| RentAnalyse.RentStatisticalAsWrittenFailsOnPricelessDistrict | app/rent_analyse.py:83 | a district none of whose rows has a price makes the written report fail, whatever the engine's order |
| RentAnalyse.RentStatisticalAsWrittenAgreesWhenAscending | app/rent_analyse.py:67-94 | with a price in every district and both `distinct()` and the median pass ascending, the written report is the corrected one |
| RentAnalyse.RentStatisticalAsWrittenAreaMisaligned | app/rent_analyse.py:80-87 | with a price in every district and `distinct()` not ascending, the report succeeds and some position names one district beside another district's min, max and mean |
| RentAnalyse.RentStatisticalAsWrittenMedianMisaligned | app/rent_analyse.py:77 | with a price in every district and the median pass not ascending, the report succeeds and some position holds one district's median beside another district's minimum |
| RentAnalyse.RentStatisticalAsWrittenAreaExample | app/rent_analyse.py:80-87 | on the table with "A" priced 100 and "B" priced 300 and `distinct()` yielding "B" first, "B" is reported with minimum 100 |
| RentAnalyse.RentStatisticalAsWrittenMedianExample | app/rent_analyse.py:77 | on the same table with the median pass yielding "B" first, "A" is reported with median 300 |
| RentAnalyse.Zip | app/rent_analyse.py:111-118 | one entry per label, each label beside the count at the same position |
| RentAnalyse.PriceBuckets | app/rent_analyse.py:105-119 | six price buckets, each labelled with its own range and counting the prices in it, adding up to the rows with a price |
| RentAnalyse.BuildareaBuckets | app/rent_analyse.py:121-135 | six floor-area buckets, each labelled with its own range and counting the areas in it, adding up to the rows with an area |
| RentAnalyse.ClassificationOf | app/rent_analyse.py:97-135 | two six-bucket histograms, each adding up to the rows with a value in its column |
| RentAnalyse.SparkAnalyse.constructor | app/rent_analyse.py:11-16 | the loaded table, a row count equal to the number of input rows, and the districts in ascending order |
| RentAnalyse.SparkAnalyse.OverallRent | app/rent_analyse.py:44-53 | the corrected overall report of the loaded table, with min <= avg <= max when there is a price |
| RentAnalyse.SparkAnalyse.RentalsNum | app/rent_analyse.py:56-64 | one count per district of `areas`, each the district's row count, adding up to `data_num` |
| RentAnalyse.SparkAnalyse.RentStatistical | app/rent_analyse.py:67-94 | the corrected statistics, their `area` column being `areas` |
| RentAnalyse.SparkAnalyse.ClassificationCount | app/rent_analyse.py:97-135 | both histograms, each adding up to the rows with a value in its column |

## Left out

- `init_spark` and `printSchema` (app/rent_analyse.py:19-23, 34) set up the engine session and log. They compute nothing.
- Reading the CSV file (line 27) is I/O. The model starts from its rows: each cell is text, and an empty cell is null.
- `save_data`, `save_to_json` and the script entry point are file output and are not modelled. The reports are the values they would save.
- `app/reptile.py`, the web crawler, is not part of this model.
- Cast.ParseInt: follows the engine's non-ANSI string-to-int cast. Blanks and control characters are trimmed. An optional sign comes next, then digits, and a fractional part is dropped. Anything else, or a value outside 32 bits, gives null. The engine's code is not part of this model, so this is its documented behaviour.
- RentAnalyse.OverallRentOf: the mean is exact. `round(x, 2)` on a floating-point value is not modelled.
- RentAnalyse.RentStatisticalOf: the mean is exact, and `round(x, 2)` on a floating-point value is not modelled. The median is the exact lower median, not the approximation `percentile_approx` computes. The engine documents a relative rank error of at most 1/10000 with its default accuracy.
- Stats.MedianOf: the exact lower median, i.e. the smallest value with at least half of the values at or below it. The approximation sketch of `percentile_approx` is not modelled.
- Table.RawRow: the district is never null. With a null district, Python's `sorted` would have to compare `None` with a string.
- Grouping.SortByKey: Python compares whole rows, but districts within one pass are distinct, so the aggregate never decides the order. The model sorts by district alone.
- RentAnalyse.SparkAnalyse: the report methods take the engine's group order as a parameter, since the engine does not specify it.

## Findings

| source | as written | input that shows it | evidently intended | confidence | as-written member | corrected member |
|---|---|---|---|---|---|---|
| app/rent_analyse.py:39-40 | `areas` keeps the order `distinct()` returns, but the counts of `rentals_num` are sorted by district | rows in "A", "B", "B" with `distinct()` yielding "B" first: "B" is reported with 1 row | `areas` sorted like the counts | medium: depends on the engine's order; not executed | RentAnalyse.RentalsNumAsWrittenMisaligned | RentAnalyse.RentalsNumOf |
| app/rent_analyse.py:80 | `rent_statistical` labels its sorted columns with the unsorted `areas` | "A" priced 100 and "B" priced 300, `distinct()` yielding "B" first: "B" is reported with minimum 100 | the `area` column in ascending order | medium: depends on the engine's order; not executed | RentAnalyse.RentStatisticalAsWrittenAreaMisaligned | RentAnalyse.RentStatisticalOf |
| app/rent_analyse.py:77 | the median pass is not sorted, unlike the other three | "A" priced 100 and "B" priced 300, groups yielded "B" first: "A" is reported with median 300 | `sorted(...)` around the median pass | medium: depends on the engine's order; not executed | RentAnalyse.RentStatisticalAsWrittenMedianMisaligned | RentAnalyse.RentStatisticalOf |
| app/rent_analyse.py:130 | the label of the [70, 90) bucket reads "70-80m²" | any table; the label does not match the query at line 123 | "70-90m²" | high; not executed | Buckets.BuildareaLabelsAsWrittenMismatch | Buckets.BuildareaLabels |
| app/rent_analyse.py:132 | the label of the [120, 150) bucket reads "120-144m²" | any table; the label does not match the query at line 125 | "120-150m²" | high; not executed | Buckets.BuildareaLabelsAsWrittenMismatch | Buckets.BuildareaLabels |
| app/rent_analyse.py:49 | `round` is applied to a null mean | an empty table, or one with no readable price: `round(None, 2)` raises | the avg entry null, like max and min | high; not executed | RentAnalyse.OverallRentAsWrittenFailsWithoutPrices | RentAnalyse.OverallRentOf |
| app/rent_analyse.py:83 | `round` is applied to a district's null mean | a district whose only row has no price | that district's mean reported as null | high; not executed | RentAnalyse.RentStatisticalAsWrittenFailsOnPricelessDistrict | RentAnalyse.RentStatisticalOf |
