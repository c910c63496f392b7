# izv-2022 in Dafny: the data rules of the temperature, accident and geo exercises

This project models the pure rules inside three coursework data pipelines and proves properties about them.

- **Temperature analytics.** `integrate` applies the composite trapezoidal rule to sampled points. `get_avg_temp` averages the daily readings of records chosen by an optional year and an optional month. Python truthiness drives that choice. Both copies of the module (`part1/part01.py` and the earlier draft `part01.py`) hold the same logic, so one definition models both.
- **Accident table.** The model covers:
  - the fixed table of 14 regions and the region tag that `load_data` adds;
  - `parse_data`, which keeps the first row of each identifier `p1` and coerces the coordinates `d` and `e` to numbers;
  - the three chart classifiers: visibility from `p19`, collision direction from `p7`, and injury severity from `p13a`/`p13b`/`p13c`;
  - the region and code selections, and the group counts the charts are drawn from.
- **Geo selection.** `make_geo` keeps only rows that have both coordinates, coerces `p11` and attaches a point. `plot_geo` selects the alcohol-related accidents in region JHM for 2018 to 2021 and splits them into four yearly panels.

Design of the model:

- Tables are sequences of immutable records.
- A pandas missing value is `None` (`Wrappers.Option`), or `Empty` for a table cell (`Numeric.Cell`).
- Numbers are `real`.
- A pandas operation becomes a function on sequences. `Seqs.Filter` models the boolean-mask selection `df[mask]`. `Charts.GroupCount` models grouping rows by a key and counting them, which the source does by summing a column of ones (`groupby(...).agg(sum)`) or by a pivot with `count`.
- A failing call becomes an error value: numpy's broadcasting error is `None` from `Integrate`; `get_avg_temp`'s division by zero is `Temperature.Mean`.

A zero reading count in `get_avg_temp` is not one outcome but two, and the model follows the code.

- When no record is selected, the running total and count are still the integers 0, and `0 / 0` raises a division error (`Mean.ZeroDivision`).
- When records are selected but all their reading arrays are empty, the total has become a numpy float, and `0.0 / 0` yields `nan` (`Mean.NotANumber`).

The docstring of `get_avg_temp` says nothing about an empty selection.

Modules: `Wrappers`, `Seqs`, `Temperature`, `Numeric`, `Accidents`, `Charts`, `Geo`, one file each.

## Model

| member | source | states |
|---|---|---|
| Temperature.Integrate | part1/part01.py:20-27 | For samples of equal length the result is the trapezoidal sum over adjacent pairs. When either side has fewer than two samples and the call succeeds, the result is 0. The call fails exactly when the interval counts differ and neither is 1, the case numpy cannot broadcast. |
| Temperature.IntegrateBroadcastWidth | part1/part01.py:27 | With two x samples and several y samples, the single width is broadcast: the result is that width times the trapezoid of y on the unit grid 0, 1, 2, …. |
| Temperature.IntegrateBroadcastHeight | part1/part01.py:27 | With two y samples and several x samples, the single mean height is broadcast: the result is that height times x_last − x_first. |
| Temperature.SumMeansOnUnitGrid | part1/part01.py:27 | The sum of adjacent means equals the trapezoid of the same samples on the unit grid. |
| Temperature.TrapezoidIsPairSum | part01.py:20-21 | The vectorised sum of interval widths times mean heights equals the recursive trapezoid definition. |
| Temperature.IntegrateConstant | part1/part01.py:21-27 | For a constant function c the result is exactly c·(x_last − x_first). |
| Temperature.TrapezoidLinearExact | part1/part01.py:27 | For y = x the rule gives exactly (x_last² − x_first²)/2. |
| Temperature.IntegrateNonNegative | part1/part01.py:24-27 | If x is ordered from lowest to highest and y holds one value ≥ 0 per sample of x, the result exists and is ≥ 0. |
| Temperature.IntegrateNonNegativeAnyLength | part1/part01.py:24-27 | For samples of any lengths, with x ordered from lowest to highest and every y ≥ 0, a result that exists is ≥ 0, including the broadcast cases. |
| Temperature.SelectBoth | part1/part01.py:136-137 | With a non-zero year and a non-zero month, the selection is the plain filter on that year and month. Input order and repeats are kept. |
| Temperature.SelectMonthOnly | part1/part01.py:138-139 | With year `None` and a non-zero month, the selection is the plain filter on that month, in input order. |
| Temperature.SelectYearOnly | part1/part01.py:140-141 | With a non-zero year and month `None`, the selection is the plain filter on that year, in input order. |
| Temperature.SelectFallsThrough | part01.py:105-112 | With neither filter set, or with a year or month equal to 0, every record is selected in order (the truthiness quirk). |
| Temperature.AvgTemp | part1/part01.py:145-151 | Division by zero happens exactly when no record is selected. A mean exists exactly when the selected records have at least one reading. |
| Temperature.Accumulate | part01.py:114-118 | The loop's running sum and day count equal the sum and the number of all readings of the records. |
| Temperature.GetAvgTemp | part01.py:104-120 | The select-accumulate-divide procedure returns the total of the selected readings divided by their count. It returns `ZeroDivision` when nothing is selected and `NotANumber` when the selected records have no readings. |
| Temperature.AvgTempOrderIndependent | part1/part01.py:145-151 | The result depends only on the multiset of records, not on their order. |
| Temperature.AvgTempWithinBounds | part01.py:114-120 | If every selected reading lies in [lo, hi], the mean does too. |
| Numeric.Coerce | part2/analysis.py:73-74 | Coercion keeps numbers, leaves empty cells missing and reads numeric text. Text that is not a number becomes missing. No text remains. |
| Numeric.ParseIntToString | part2/analysis.py:73-74 | Every integer written in decimal is read back as the same number. |
| Numeric.CoerceIntegerText | part2/analysis.py:73-74 | A cell holding an integer as text is coerced to that integer. |
| Numeric.DecimalCommaIsMissing | part2/analysis.py:73-74 | For every non-empty digit string a and every digit string b, the text a,b is not a number and becomes missing. |
| Numeric.DecimalPointIsRead | part2/analysis.py:73-74 | For the same a and b, the text a.b is read as its decimal value. |
| Accidents.RegionTableIsBijective | part2/analysis.py:28-43 | The region table has 14 entries with pairwise distinct names and pairwise distinct codes. |
| Accidents.LoadArchive | part2/analysis.py:48-52 | Reading one yearly archive succeeds exactly when it holds the CSV of every remaining region. Every row read is tagged with a region name. |
| Accidents.LoadData | part2/analysis.py:45-54 | Loading succeeds exactly when there is at least one archive and every archive holds all 14 region files. An empty list fails, as concatenating no frames does. Every loaded row is tagged with one of the 14 region names. |
| Accidents.LoadDataByRegion | part2/analysis.py:49-54 | The loaded rows tagged with a region's name are exactly that region's CSV rows, archive by archive, in order. |
| Accidents.FirstIndices | part2/analysis.py:68 | The kept positions are increasing. Each is the first occurrence of its identifier, and every first occurrence is kept. |
| Accidents.FirstOccurrence | part2/analysis.py:68 | Every row has a first occurrence of its identifier at or before it. |
| Accidents.CleanRow | part2/analysis.py:73-74 | `d` and `e` are each coerced as `Numeric.Coerce` states: numbers kept, numeric text read, empty cells left missing, other text made missing. Every other column is unchanged. |
| Accidents.DeduplicatedAt | part2/analysis.py:68-74 | The reference result, the cleaned first occurrence of each identifier, holds position by position the cleaned rows at the first-occurrence positions. |
| Accidents.DropDuplicatesAndCoerce | part2/analysis.py:66-74 | The one-pass loop, which tracks the identifiers seen so far, returns exactly the reference result: the cleaned first occurrences in input order. |
| Accidents.DeduplicatedDistinctIds | part2/analysis.py:68 | No two rows of the reference result share `p1`. |
| Accidents.DeduplicatedCoverIds | part2/analysis.py:68 | Every identifier of the input appears in the reference result. |
| Accidents.DeduplicatedNoText | part2/analysis.py:73-74 | No row of the reference result has `d` or `e` left as text. |
| Accidents.ParseData | part2/analysis.py:58-83 | The output is the cleaned first row of each identifier, in input order. No two output rows share `p1`. Every input identifier still appears. No coordinate is left as text. |
| Accidents.VisibilityOf | part2/analysis.py:97-105 | `p19` gets a label exactly when it is 1 to 7. The label is the bucket whose code set ({1}, {2,3}, {4,6}, {5,7}) holds the code. |
| Accidents.VisibilityBucketsDistinct | part2/analysis.py:97-105 | The four code sets are disjoint and the four Czech labels are distinct. |
| Accidents.CrashTypeOf | part2/analysis.py:154-160 | `p7` gets a direction exactly when it is 1 to 4: 1 head-on, 2 or 3 side, 4 rear. |
| Accidents.CrashTypesDistinct | part2/analysis.py:154-160 | The direction code sets are disjoint and the labels are distinct. |
| Accidents.InjuryOf | part2/analysis.py:204-212 | The label is the most serious category with victims: death over severe over light. It is "none" only when nobody was hurt. |
| Accidents.DirectionRows | part2/analysis.py:162-164 | The direction chart keeps exactly the rows with `p7` ≠ 0 in OLK, PAK, VYS or ZLK. Each kept row occurs as often as in the input. |
| Accidents.DirectionRowsAppend | part2/analysis.py:164 | The selection of two concatenated tables is the selection of the first followed by that of the second, so input order is kept. |
| Charts.GroupCount | part2/analysis.py:111-112 | A group is present exactly when some row has that key, and it holds the positive number of such rows. Rows without a key are dropped. |
| Charts.VisibilityStats | part2/analysis.py:107-112 | Groups exist only for JHC, PHA, PLK and STC. Each (bucket, region) count is the number of rows of that region whose code lies in the bucket. |
| Charts.VisibilityCountsAddUp | part2/analysis.py:107-112 | In each of those regions the four bucket counts add up to the rows with a code from 1 to 7. |
| Charts.DirectionStats | part2/analysis.py:162-169 | Groups exist only for the four regions, and a group is present exactly when its count is positive. Each (region, month, direction) count is the number of that region's rows in that month whose `p7` code has that direction. |
| Charts.ConsequenceStats | part2/analysis.py:214-226 | The call succeeds exactly when every severity has a row in the four regions: without an uninjured row, dropping the "none" column fails; without a light, severe or fatal row, the melt into long form fails. Otherwise no group has severity "none" and every group is in the four regions. Each (severity, region, year, month) count is the rows with a recorded `p9` whose most serious injury is that severity. |
| Geo.MakeGeo | part3/geo.py:12-27 | The output holds the input rows with both `d` and `e` present, in input order. Each has its `p11` coerced to a number or missing (numbers unchanged) and the point (d, e) as its geometry. |
| Geo.MakeGeoIdempotent | part3/geo.py:12-27 | Running the conversion again on its own output rows changes nothing. |
| Geo.PlotGeoPanels | part3/geo.py:33-43 | Panel i (0 to 3) holds exactly the rows of region JHM with a numeric `p11` ≥ 3 whose year is 2018 + i. A missing `p11` is never drawn. |
| Geo.PanelsPartitionSelection | part3/geo.py:37-43 | The four panels together hold exactly the selection of 2018–2021, each row once. |

## Left out

- HTTP download and HTML parsing (`download_data`): network and parser I/O. Records are given as values.
- All plotting and styling (`generate_graph`, `generate_sinus`, the seaborn and matplotlib figures, basemap tiles, titles, saving or showing a figure): rendering with no result.
- ZIP and CSV reading in `load_data`: an archive is given as a map from file name to parsed rows. The CSV parser's own conversions (the `decimal=","` option, the cp1250 encoding) are not modelled.
- Category conversion in `parse_data` and the `verbose` memory report: representation and printing, not behaviour.
- Date parsing (`pd.to_datetime`): a row carries its year and month as given integers.
- Charts.ConsequenceStats: the pivot is modelled as counts per calendar month. The monthly `resample` that adds zero rows for months with no accident, and the shape of the `melt` into long form, are not modelled. The failures of `drop` and `melt` when a severity column is missing are modelled as `None`. An absent group reads as 0 through `CountOf`.
- Charts.DirectionStats: counts are grouped by the given month field. The source derives that month from the parsed date.
- Reprojection from EPSG:5514 to EPSG:3857: a foreign geodesy library. The point keeps the (d, e) coordinates it is built from.
- `plot_cluster`: an empty function with no behaviour.
- IEEE floating point: samples, temperatures and coordinates are `real`, so results are exact, with no rounding and no tolerance.
- Numeric.Coerce: text is read as a number only in the form optional sign, digits, optional dot and digits. `pd.to_numeric` also accepts a leading dot (".5", "-.5"), exponents, surrounding spaces and words such as "inf"; the model makes these missing.
- Geo.MakeGeo: its input must already have numeric-or-missing `d` and `e`. The only caller (part3/geo.py:66) reads the table from the pickled file `accidents.pkl.gz`, so this is an assumption about that file. Building points from text coordinates is library behaviour and is not modelled.
- Input immutability: `parse_data` and `make_geo` work on a copy of their input. Here every table is an immutable value, so this holds by construction and no member states it.
- Temperature.AvgTemp: numpy prints a warning when it produces `nan`. The warning is not modelled; only the `NotANumber` outcome is.
