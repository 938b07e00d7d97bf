# CMIP6 anomaly chart: the data pipeline of `main.js`

This project models, in Dafny, the data side of an interactive chart of CMIP6
temperature-anomaly projections per country and scenario. The chart loads rows
`{country, scenario, year, anom}`. On every render it does four things:

1. It keeps the rows of the selected countries and scenarios.
2. It groups them by country and, within each country, by scenario.
3. It smooths each (country, scenario) series with a centred moving average.
4. It marks where each smoothed series first rises to a Paris threshold
   (1.5 and 2.0 degrees C) and picks the upper end of the y axis.

The files:

- `js.dfy` (module `Js`): the JavaScript built-ins used, over exact reals. These
  are `null` as `Option`, `Math.max`/`Math.min`, `Math.ceil`, and
  `Array.prototype.slice`. For `slice` the model includes its truncation of
  fractional arguments and its clamping.
- `records.dfy` (module `Records`): the row type, and `d3.mean`/`d3.max` over
  `anom` values. It also proves that a mean lies within any bounds of the
  averaged values.
- `smoothing.dfy` (module `Smoothing`): `smoothSeries`, its window, and the lemmas
  about both.
- `crossing.dfy` (module `Crossing`): `firstCrossing`. It is a method with the
  source's loop and early return, proved equal to a recursive reference
  definition. Lemmas give the "first", "null" and interpolation properties.
- `grouping.dfy` (module `Grouping`): the filter of main.js:65 and the nested
  `d3.group` of main.js:66. Groups have distinct keys in order of first
  appearance, and each group keeps its records in input order (a subsequence).
- `render.dfy` (module `Render`): the marker collection with its nested loops, as
  methods proved against a specification function. Also the automatic y-domain
  bound, and `RenderChart`, which composes the whole pipeline for one render.

Modelling choices:

- `smoothSeries` is a function over sequences. `k` is an integer no larger than
  2^31-1, so `k|0` is `k` itself.
- `r = (w-1)/2` is real division, as in JavaScript. The window is whatever
  `arr.slice(max(0,i-r), min(len-1,i+r)+1)` yields once `slice` truncates its
  arguments. `Smoothing.Window` proves the closed form
  `arr[max(0, i - w/2) .. min(len, i + (w-1)/2 + 1))`.
- For odd `w`, that closed form is the inclusive range
  `[max(0,i-r), min(len-1,i+r)]`.
- For even `w`, the code's window holds `w` records away from the ends. It
  reaches one place further left of `i` than right (`Smoothing.EvenWindow`).
  This differs from a symmetric radius of `floor((w-1)/2)`. The model follows
  the code.
- A marker is pushed when `if (xHit)` is true (main.js:118). In JavaScript a
  crossing year of exactly 0 is falsy, just like `null`, so `Render.Truthy`
  models that test as written.
- Years are integers and anomalies are exact reals. Sortedness by year is never
  enforced by the code. Where a property needs it, it is a precondition
  (`Crossing.InterpolationBounds`, `Smoothing.SmoothKeepsYearOrder`).

## Model

| member | source | states |
|---|---|---|
| `Js.Slice` | main.js:46 | `slice(start, end)` gives the elements from the truncated, clamped start position up to the end position, and is empty when the end is not after the start |
| `Js.MaxReal` | main.js:45 | `Math.max(a, b)` is one of `a` and `b` and at least both (also the `Math.max(2, …)` of main.js:74) |
| `Js.MinReal` | main.js:45 | `Math.min(a, b)` is one of `a` and `b` and at most both |
| `Js.Ceil` | main.js:74 | `Math.ceil(x)` is the least integer at or above `x` |
| `Records.Anoms` | main.js:46 | the accessor `e => e.anom` (and `.map(d => d.anom)` of main.js:72) gives one value per record, in order, each that record's `anom` |
| `Records.Mean` | main.js:46 | `d3.mean` of a non-empty sequence lies between its minimum and its maximum |
| `Records.MeanBounds` | main.js:46 | the mean of a non-empty sequence lies within any lower and upper bound of its values |
| `Records.MaxOf` | main.js:71-73 | `d3.max` is undefined exactly for an empty sequence; otherwise it is an element of the sequence and no element exceeds it |
| `Smoothing.Radius` | main.js:43 | `r = (w-1)/2` is the whole number `(w-1)/2` for odd `w` and half a step more for even `w` |
| `Smoothing.WindowEnds` | main.js:43-46 | `max(0, i-r)` and `min(len-1, i+r)+1`, truncated by `slice`, are `max(0, i - w/2)` and `min(len, i + (w-1)/2 + 1)`, for odd and for even `w` |
| `Smoothing.Window` | main.js:45-46 | the records averaged for index `i` are the contiguous run `arr[max(0, i - w/2) .. min(len, i + (w-1)/2 + 1))` |
| `Smoothing.SmoothedAt` | main.js:44-47 | the record mapped at index `i` keeps every field of `arr[i]` except `anom`, its window is non-empty, and its `anom` lies between the window's least and greatest `anom` |
| `Smoothing.SmoothSeries` | main.js:41-49 | for `k <= 1` the result is the input itself; in every case it has the input's length, and element `i` equals input element `i` in every field except `anom` |
| `Smoothing.SmoothedIsWindowMean` | main.js:44-47 | for `k > 1` the smoothed `anom` at `i` is the mean of the `anom` values of `arr[max(0, i - k/2) .. min(len, i + (k-1)/2 + 1))` |
| `Smoothing.OddWindow` | main.js:43-46 | for odd `w` the window is the inclusive range `[max(0,i-r), min(len-1,i+r)]`: inside the array, holding `i`, never empty, at most `w` long, shrinking at the ends |
| `Smoothing.EvenWindow` | main.js:43-46 | for even `w`, away from the ends, the window is `arr[i - w/2 .. i + w/2)`, exactly `w` records |
| `Smoothing.SmoothedWithinWindow` | main.js:46 | each smoothed `anom` lies within any bounds that hold all the `anom` values of its window |
| `Smoothing.SmoothedBetweenExtremes` | main.js:46 | each smoothed `anom` lies between the minimum and maximum `anom` of its window |
| `Smoothing.SmoothKeepsYearOrder` | main.js:44-47 | smoothing a series with strictly increasing years keeps the years strictly increasing |
| `Smoothing.SmoothExample` | main.js:41-49 | `[1, 2, 3]` with `k = 3` smooths to 1.5, 2.0 and 2.5 |
| `Smoothing.SmoothMeanExample` | main.js:41-49 | `[0, 0, 3]` with `k = 3` smooths the middle record to 1.0, the window's mean (its midrange would be 1.5) |
| `Crossing.Interpolate` | main.js:55-57 | the interpolated year `x` puts `(x, thresh)` on the straight line through `(x0, y0)` and `(x1, y1)` |
| `Crossing.FirstCrossingFrom` | main.js:52-53 | the first crossing index at or after `from`: a crossing pair with none before it, or none exactly when no later pair crosses |
| `Crossing.CrossingYear` | main.js:51-61 | `firstCrossing` yields `null` exactly when no adjacent pair crosses the threshold upward |
| `Crossing.FirstCrossing` | main.js:51-61 | the scan with early return yields the interpolated year of the first crossing pair, or `null`, as `CrossingYear` defines |
| `Crossing.NullIffNoCrossing` | main.js:52-60 | the result is `null` exactly when the series has fewer than two records or no adjacent pair has `prev.anom < thresh <= cur.anom` |
| `Crossing.YearFromFirstCrossing` | main.js:52-57 | a returned year is the interpolation at a crossing pair with no crossing pair before it |
| `Crossing.InterpolationBounds` | main.js:53-57 | at a crossing pair `y0 < y1` and `t` lies in `(0, 1]`, with `t = 1` exactly when `thresh == y1`; with increasing years the year lies in `(x0, x1]` and equals `x1` exactly when `thresh == y1` |
| `Crossing.CrossingExample` | main.js:55-57 | 2020 at 1.0 and 2021 at 1.6 cross 1.5 at 2020 + 5/6 |
| `Grouping.Filter` | main.js:65 | `filter` keeps exactly the elements that satisfy the predicate, in input order, each one as many times as the input holds it, and none of the others |
| `Grouping.SelectRecords` | main.js:65 | the selection holds exactly the records whose country is selected and whose scenario is checked, in input order, each as many times as the data holds it |
| `Grouping.SelectNothing` | main.js:65 | with no country selected, nothing is selected |
| `Grouping.Keys` | main.js:66 | the keys of `d3.group` are distinct; every record's key is among them, each key comes from a record, and they come in order of first appearance: wherever a record has a later key, every earlier key has already occurred |
| `Grouping.KeyGroup` | main.js:66 | the group of key `k` holds exactly the records with key `k`, every copy of each, in input order |
| `Grouping.GroupBy` | main.js:66 | one group per distinct key, keyed in the order of `Keys`, each the `KeyGroup` of its key, each non-empty, holding only records with its key, in input order; every record lies in the group of its key, and together the groups hold each record exactly as many times as the input does |
| `Grouping.ScenarioGroups` | main.js:66 | one country's records grouped by scenario: distinct scenarios, each group non-empty, in input order and of its own scenario, and together holding each of the country's records exactly as many times as the country group does; the scenarios come in order of first appearance among the country's records (`Keys`) |
| `Grouping.GroupByCountryScenario` | main.js:66 | distinct countries, and inside each country distinct scenario groups of that country's records, each in input order; all groups together hold each input record exactly as many times as the input does; the countries come in order of first appearance in the input, and inside each country the scenarios in order of first appearance among that country's records |
| `Grouping.GroupedCoverage` | main.js:66 | every record lies in the group of its own country and scenario |
| `Grouping.SelectionGroups` | main.js:65-66 | every grouped record comes from the data, has a selected country and scenario, and each group keeps the input order |
| `Grouping.SelectedRecordGrouped` | main.js:65-66 | every selected record of the data lies in the group of its country and scenario |
| `Render.SmoothGroups` | main.js:115 | each scenario group is replaced by its smoothed series under the same key |
| `Render.Truthy` | main.js:118 | `if (xHit)` is false for `null` and for a year of 0, and true for any other year |
| `Render.ThresholdMarkers` | main.js:116-119 | the markers of one scenario over the first `n` thresholds are at most `n`, all carrying that scenario |
| `Render.Markers` | main.js:113-120 | the markers of a country number at most `yParis.length` times its number of scenarios, in total |
| `Render.ScenarioMarkers` | main.js:116-119 | the `yParis.forEach` loop pushes, per threshold in order, a marker for each truthy crossing of the series |
| `Render.CollectMarkers` | main.js:113-120 | the nested loops build the markers of all scenarios of a country, scenario after scenario, from their smoothed series |
| `Render.ThresholdMarkerSound` | main.js:116-119 | each marker of a scenario has that scenario, a Paris threshold as `y`, and the truthy first-crossing year at that threshold as `x` |
| `Render.ThresholdMarkerComplete` | main.js:116-119 | each truthy crossing at a threshold yields its marker |
| `Render.ThresholdMarkersDistinct` | main.js:116-119 | no two markers of one scenario share a threshold |
| `Render.MarkerSound` | main.js:113-120 | every marker of a country comes from one of its scenarios and is the truthy first crossing of that scenario's series at a Paris threshold |
| `Render.MarkerComplete` | main.js:113-120 | every truthy crossing of every scenario at every Paris threshold yields its marker |
| `Render.MarkersDistinct` | main.js:113-120 | with distinct scenario keys, at most one marker per (scenario, threshold) |
| `Render.MarkerIff` | main.js:113-120 | a scenario has a marker at a Paris threshold exactly when its crossing there is truthy |
| `Render.SeriesAnoms` | main.js:71-72 | each value handed to `d3.max` for one country is the `anom` of a record of one of its smoothed series |
| `Render.ChartAnoms` | main.js:71-72 | each value handed to `d3.max` is the `anom` of a record of a smoothed series of some charted country |
| `Render.CountryChartOf` | main.js:101-120 | one country's chart keeps the country, has one series per scenario group with the same key and that group's smoothed records, and its markers are `Markers` of those series |
| `Render.CountryCharts` | main.js:99-101 | one chart per country group, in the order of `byCountryScenario`, each the `CountryChartOf` of its group |
| `Render.YMax` | main.js:69-73 | `yMax` is the largest smoothed value, or 2.5 when there is none |
| `Render.YTop` | main.js:74 | the domain's upper end is at least 2 and at least `yMax + 0.2`, a whole number of tenths, and below `yMax + 0.3` unless it is 2 |
| `Render.RenderChart` | main.js:63-75 | with automatic scaling off the previous upper end stays; with it on, the upper end is at least 2 |
| `Render.ChartSeriesPerCountry` | main.js:65-66 | every record drawn for a country belongs to that country and to a selected scenario, and lies in the series of its own scenario |
| `Render.ChartSeriesOwnGroup` | main.js:65-66 | each drawn series is `smoothSeries` of a subsequence of the selected records that holds only records of its own country and its own scenario, so nothing is averaged across countries or scenarios |
| `Render.SeriesOfGroup` | main.js:103-107 | the `g`-th series of a country's chart has the key of that country's `g`-th scenario group and is `smoothSeries` of exactly that group's records, a subsequence of the selection holding only that country and scenario |
| `Render.ChartCountry` | main.js:99-101 | country `c` of the chart is `CountryChartOf` the `c`-th group of the grouped selection, which is a group of its own country's records |
| `Render.ChartHeadroom` | main.js:69-74 | with automatic scaling every drawn smoothed value lies at least 0.2 below the upper end of the y domain |
| `Render.EmptyChartFallback` | main.js:69-74 | with no country selected there is nothing to draw and the domain falls back to `yMax = 2.5`, i.e. an upper end of 2.7 |
| `Render.ChartMarkers` | main.js:113-120 | in the composed chart, a country's scenario has a marker at a threshold exactly when its smoothed series crosses there at a truthy year, at most one per (scenario, threshold) |

## Left out

- `Smoothing.SmoothSeries`: requires `k <= 2^31-1`, so that `k|0` is `k`. Beyond that the 32-bit wrap of `k|0` changes the width `w`. For `k` from `2^31` to `2^32+1`, `w` is at most 1. Width 1 leaves every record as it is. For `-2 <= w <= 0` every window is empty, so `d3.mean` is `undefined`, which the real-valued model cannot hold. For `w <= -3` the windows near the start get a negative end, which `slice` counts from the end of the array, so in a long enough series they are non-empty; the other windows are empty. Larger `k` wraps back to ordinary widths (`2^32+3` gives 3). The model follows none of these.
- `Smoothing.SmoothSeries`: `k` is an integer. `+ev.target.value` (main.js:184) could be fractional, and `k|0` would then truncate it; for `1 < k < 2` the width becomes 1, so every window is the record itself. The model does not take fractional widths.
- `Smoothing.SmoothSeries`: for `k <= 1` the source returns the same array object. The value model shows equal contents but not the aliasing.
- Floating point. Anomalies and years are exact reals. For example, with
  `yMax = 2.1` IEEE doubles give `(2.1 + 0.2) * 10 = 23.000000000000004`, whose
  ceiling makes the upper end 2.4, while the exact model gives 2.3.
- `d3.mean` and `d3.max` skipping `null`/`NaN` is not modelled: every `anom` is
  a number.
- All SVG/D3 drawing: scales, axes, `d3.line`, the Paris band paths and lines,
  the joins and circles (main.js:20-39, 77-124). The model keeps what they are fed
  (`Render.Chart`).
- The tooltip (main.js:127-137), the context plot with its median line and brush
  (main.js:143-160), the colour scale (main.js:5-7) and the empty summary text
  (main.js:140).
- CSV loading and the event handlers that mutate `state` (main.js:162-196):
  these are I/O and UI. `Render.State` is the state one render reads. The
  handlers' updates are not modelled, among them the cap of the country selection
  at 8 (main.js:174), the default pick of 5 (main.js:169) and the brush's
  `xDomain`. `xDomain` does not affect the data.
- The x scale's domain update (main.js:154) and the y scale itself: `RenderChart` returns only the upper end of the y domain (its lower end is always 0).
