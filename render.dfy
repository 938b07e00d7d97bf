/** The data side of `render` (main.js:63-141): per country and scenario the
    smoothed series, the first-crossing markers for the Paris thresholds, and the
    automatic upper end of the y domain. */
module Render {
  import opened Js
  import opened Records
  import opened Smoothing
  import opened Crossing
  import opened Grouping

  /** The Paris Agreement thresholds of main.js:9, in degrees C. */
  const YParis: seq<real> := [1.5, 2.0]

  /** A circle drawn on a series: the crossing year, the threshold, the scenario. */
  datatype Marker = Marker(x: real, y: real, scenario: string)

  /** No two markers share both scenario and threshold. */
  predicate OnePerScenarioThreshold(ms: seq<Marker>)
  {
    forall p, q :: 0 <= p < q < |ms| ==> ms[p].scenario != ms[q].scenario || ms[p].y != ms[q].y
  }

  /** `if (xHit)` (main.js:118): `null` is falsy, and so is a crossing year of 0. */
  function Truthy(hit: Option<real>): (t: bool)
    ensures hit.None? ==> !t
    ensures hit == Some(0.0) ==> !t
    ensures hit.Some? && hit.value != 0.0 ==> t
  {
    hit.Some? && hit.value != 0.0
  }

  /** The smoothed series of one country (main.js:110, 115): each scenario's
      records passed through `smoothSeries`. */
  function SmoothGroups(gs: seq<Group>, smooth: int): (r: seq<Group>)
    requires smooth <= MaxInt32
    ensures |r| == |gs|
    ensures forall g :: 0 <= g < |gs| ==>
              r[g].key == gs[g].key && r[g].members == SmoothSeries(gs[g].members, smooth)
  {
    seq(|gs|, g requires 0 <= g < |gs| => Group(gs[g].key, SmoothSeries(gs[g].members, smooth)))
  }

  /** The markers that scenario `s` with smoothed series `arr` contributes for the
      first `n` Paris thresholds, in threshold order (main.js:116-119). */
  function ThresholdMarkers(s: string, arr: seq<Record>, n: nat): (ms: seq<Marker>)
    requires n <= |YParis|
    ensures |ms| <= n
    ensures forall j :: 0 <= j < |ms| ==> ms[j].scenario == s
  {
    if n == 0 then []
    else
      var hit := CrossingYear(arr, YParis[n - 1]);
      ThresholdMarkers(s, arr, n - 1) + (if Truthy(hit) then [Marker(hit.value, YParis[n - 1], s)] else [])
  }

  /** The markers of one country (main.js:113-120) from its smoothed series: for
      each scenario in turn and each threshold, a marker when the crossing is truthy. */
  function Markers(series: seq<Group>): (ms: seq<Marker>)
    ensures |ms| <= |YParis| * |series|
  {
    if series == [] then []
    else
      var last := series[|series| - 1];
      Markers(series[..|series| - 1]) + ThresholdMarkers(last.key, last.members, |YParis|)
  }

  /** The inner `yParis.forEach` of main.js:116-119 for scenario `s` and its
      smoothed series `arr`. */
  method ScenarioMarkers(s: string, arr: seq<Record>) returns (ms: seq<Marker>)
    ensures ms == ThresholdMarkers(s, arr, |YParis|)
  {
    ms := [];
    var j := 0;
    while j < |YParis|
      invariant 0 <= j <= |YParis|
      invariant ms == ThresholdMarkers(s, arr, j)
    {
      var th := YParis[j];
      var xHit := FirstCrossing(arr, th);
      if Truthy(xHit) {
        ms := ms + [Marker(xHit.value, th, s)];
      }
      j := j + 1;
    }
  }

  /** The outer `scen.forEach` of main.js:114-120: smooth each scenario's series
      and append the markers of its truthy crossings. */
  method CollectMarkers(scen: seq<Group>, smooth: int) returns (markers: seq<Marker>)
    requires smooth <= MaxInt32
    ensures markers == Markers(SmoothGroups(scen, smooth))
  {
    ghost var series := SmoothGroups(scen, smooth);
    markers := [];
    var i := 0;
    while i < |scen|
      invariant 0 <= i <= |scen|
      invariant markers == Markers(series[..i])
    {
      var arr := SmoothSeries(scen[i].members, smooth);
      var ms := ScenarioMarkers(scen[i].key, arr);
      assert series[..i + 1][..i] == series[..i];
      assert series[..i + 1][i] == Group(scen[i].key, arr);
      assert Markers(series[..i + 1]) == Markers(series[..i]) + ms;
      markers := markers + ms;
      i := i + 1;
    }
    assert series[..|scen|] == series;
  }

  /** Each threshold marker carries its scenario, one of the first `n` thresholds
      and the truthy first crossing of the series at that threshold. */
  lemma {:induction false} ThresholdMarkerSound(s: string, arr: seq<Record>, n: nat, m: Marker)
    requires n <= |YParis| && m in ThresholdMarkers(s, arr, n)
    ensures m.scenario == s && m.y in YParis[..n]
    ensures CrossingYear(arr, m.y) == Some(m.x) && m.x != 0.0
  {
    var hit := CrossingYear(arr, YParis[n - 1]);
    if m in ThresholdMarkers(s, arr, n - 1) {
      ThresholdMarkerSound(s, arr, n - 1, m);
      assert YParis[..n - 1] <= YParis[..n];
    } else {
      assert m == Marker(hit.value, YParis[n - 1], s);
    }
  }

  /** A truthy crossing at one of the first `n` thresholds yields its marker. */
  lemma {:induction false} ThresholdMarkerComplete(s: string, arr: seq<Record>, n: nat, t: nat)
    requires t < n <= |YParis| && Truthy(CrossingYear(arr, YParis[t]))
    ensures Marker(CrossingYear(arr, YParis[t]).value, YParis[t], s) in ThresholdMarkers(s, arr, n)
  {
    if t < n - 1 {
      ThresholdMarkerComplete(s, arr, n - 1, t);
    }
  }

  /** No two markers of one scenario share a threshold. */
  lemma {:induction false} ThresholdMarkersDistinct(s: string, arr: seq<Record>, n: nat)
    requires n <= |YParis|
    ensures forall p, q :: 0 <= p < q < |ThresholdMarkers(s, arr, n)| ==>
              ThresholdMarkers(s, arr, n)[p].y != ThresholdMarkers(s, arr, n)[q].y
  {
    if n > 0 {
      ThresholdMarkersDistinct(s, arr, n - 1);
      var init := ThresholdMarkers(s, arr, n - 1);
      forall p | 0 <= p < |init| ensures init[p].y != YParis[n - 1] {
        ThresholdMarkerSound(s, arr, n - 1, init[p]);
      }
    }
  }

  /** Every marker of a country belongs to one of its scenarios, sits at a Paris
      threshold, and marks the truthy first crossing of that scenario's series there. */
  lemma {:induction false} MarkerSound(series: seq<Group>, m: Marker)
    requires m in Markers(series)
    ensures m.y in YParis && m.x != 0.0
    ensures exists g :: 0 <= g < |series| && series[g].key == m.scenario &&
              CrossingYear(series[g].members, m.y) == Some(m.x)
  {
    var n := |series| - 1;
    var last := series[n];
    if m in Markers(series[..n]) {
      MarkerSound(series[..n], m);
      var g :| 0 <= g < n && series[..n][g].key == m.scenario &&
                CrossingYear(series[..n][g].members, m.y) == Some(m.x);
      assert series[g] == series[..n][g];
    } else {
      ThresholdMarkerSound(last.key, last.members, |YParis|, m);
      assert YParis[..|YParis|] == YParis;
    }
  }

  /** A truthy crossing of any scenario at any Paris threshold yields its marker. */
  lemma {:induction false} MarkerComplete(series: seq<Group>, g: nat, t: nat)
    requires g < |series| && t < |YParis|
    requires Truthy(CrossingYear(series[g].members, YParis[t]))
    ensures Marker(CrossingYear(series[g].members, YParis[t]).value, YParis[t], series[g].key)
              in Markers(series)
  {
    var n := |series| - 1;
    var last := series[n];
    var init := Markers(series[..n]);
    var tail := ThresholdMarkers(last.key, last.members, |YParis|);
    assert Markers(series) == init + tail;
    var m := Marker(CrossingYear(series[g].members, YParis[t]).value, YParis[t], series[g].key);
    if g < n {
      assert series[..n][g] == series[g];
      MarkerComplete(series[..n], g, t);
      assert m in init;
    } else {
      ThresholdMarkerComplete(series[g].key, series[g].members, |YParis|, t);
      assert m in tail;
    }
  }

  /** With distinct scenario keys (as `d3.group` gives them) there is at most one
      marker per scenario and threshold. */
  lemma {:induction false} MarkersDistinct(series: seq<Group>)
    requires DistinctKeys(series)
    ensures OnePerScenarioThreshold(Markers(series))
  {
    if series != [] {
      var n := |series| - 1;
      var last := series[n];
      var init := Markers(series[..n]);
      var tail := ThresholdMarkers(last.key, last.members, |YParis|);
      MarkersDistinct(series[..n]);
      ThresholdMarkersDistinct(last.key, last.members, |YParis|);
      assert forall a, b :: 0 <= a < b < |tail| ==> tail[a].y != tail[b].y;
      forall p | 0 <= p < |init| ensures init[p].scenario != last.key {
        MarkerSound(series[..n], init[p]);
        var g :| 0 <= g < n && series[..n][g].key == init[p].scenario &&
                  CrossingYear(series[..n][g].members, init[p].y) == Some(init[p].x);
        assert series[g] == series[..n][g];
      }
      forall q | 0 <= q < |tail| ensures tail[q].scenario == last.key {
        ThresholdMarkerSound(last.key, last.members, |YParis|, tail[q]);
      }
      var ms := Markers(series);
      assert ms == init + tail;
      forall p, q | 0 <= p < q < |ms|
        ensures ms[p].scenario != ms[q].scenario || ms[p].y != ms[q].y
      {
        if q < |init| {
          assert ms[p] == init[p] && ms[q] == init[q];
          assert init[p].scenario != init[q].scenario || init[p].y != init[q].y;
        } else if p < |init| {
          assert ms[p] == init[p] && ms[q] == tail[q - |init|];
          assert init[p].scenario != last.key && tail[q - |init|].scenario == last.key;
        } else {
          assert ms[p] == tail[p - |init|] && ms[q] == tail[q - |init|];
          assert tail[p - |init|].y != tail[q - |init|].y;
        }
      }
    }
  }

  /** A scenario of a country has a marker at a Paris threshold exactly when the
      first crossing of its series there is truthy; that marker's `y` is the threshold. */
  lemma MarkerIff(series: seq<Group>, g: nat, th: real)
    requires g < |series| && th in YParis
    requires DistinctKeys(series)
    ensures (exists m :: m in Markers(series) && m.scenario == series[g].key && m.y == th)
        <==> Truthy(CrossingYear(series[g].members, th))
  {
    var hit := CrossingYear(series[g].members, th);
    if Truthy(hit) {
      var t :| 0 <= t < |YParis| && YParis[t] == th;
      MarkerComplete(series, g, t);
      assert Marker(hit.value, th, series[g].key) in Markers(series);
    }
    if m :| m in Markers(series) && m.scenario == series[g].key && m.y == th {
      MarkerSound(series, m);
      var g' :| 0 <= g' < |series| && series[g'].key == m.scenario &&
                 CrossingYear(series[g'].members, m.y) == Some(m.x);
      assert g' == g;
    }
  }

  /** `yMax` (main.js:69-73): the largest smoothed value, or 2.5 when there is none. */
  function YMax(values: seq<real>): (m: real)
    ensures values == [] ==> m == 2.5
    ensures values != [] ==> m in values && forall j :: 0 <= j < |values| ==> values[j] <= m
  {
    match MaxOf(values)
    case None => 2.5
    case Some(v) => v
  }

  /** `Math.max(2, Math.ceil((yMax+0.2)*10)/10)` (main.js:74): at least 2, at least
      0.2 above `yMax`, a whole number of tenths, and less than a tenth more than
      needed. */
  function YTop(yMax: real): (top: real)
    ensures top >= 2.0 && top >= yMax + 0.2
    ensures top == 2.0 || top < yMax + 0.3
    ensures (top * 10.0).Floor as real == top * 10.0
  {
    MaxReal(2.0, Ceil((yMax + 0.2) * 10.0) as real / 10.0)
  }

  /** The selection state of main.js:12-18 that `render` reads. */
  datatype State = State(countries: seq<string>, scenarios: set<string>, smooth: int,
                         xDomain: (int, int), yAuto: bool)

  /** One country's part of the chart: its smoothed series and its markers. */
  datatype CountryChart = CountryChart(country: string, series: seq<Group>, markers: seq<Marker>)

  /** What `render` draws: the per-country charts and the upper end of the y domain. */
  datatype Chart = Chart(countries: seq<CountryChart>, yTop: real)

  /** The `anom` values of a country's series, series after series. */
  function SeriesAnoms(series: seq<Group>): (a: seq<real>)
    ensures forall v :: v in a ==>
              exists g, i :: 0 <= g < |series| && 0 <= i < |series[g].members| && series[g].members[i].anom == v
  {
    if series == [] then []
    else
      var n := |series| - 1;
      var init, tail := SeriesAnoms(series[..n]), Anoms(series[n].members);
      assert forall g :: 0 <= g < n ==> series[..n][g] == series[g];
      assert forall v :: v in tail ==> exists i :: 0 <= i < |tail| && tail[i] == v;
      init + tail
  }

  /** The values main.js:71-72 takes the maximum of: every smoothed `anom` of every
      country's series. */
  function ChartAnoms(charts: seq<CountryChart>): (a: seq<real>)
    ensures forall v :: v in a ==>
              exists c, g, i :: 0 <= c < |charts| && 0 <= g < |charts[c].series| &&
                0 <= i < |charts[c].series[g].members| && charts[c].series[g].members[i].anom == v
  {
    if charts == [] then []
    else
      var n := |charts| - 1;
      assert forall c :: 0 <= c < n ==> charts[..n][c] == charts[c];
      ChartAnoms(charts[..n]) + SeriesAnoms(charts[n].series)
  }

  lemma {:induction false} SeriesAnomsHold(series: seq<Group>, g: nat, i: nat)
    requires g < |series| && i < |series[g].members|
    ensures series[g].members[i].anom in SeriesAnoms(series)
  {
    var n := |series| - 1;
    var init := SeriesAnoms(series[..n]);
    var tail := Anoms(series[n].members);
    assert SeriesAnoms(series) == init + tail;
    if g < n {
      assert series[..n][g] == series[g];
      SeriesAnomsHold(series[..n], g, i);
    } else {
      assert tail[i] == series[g].members[i].anom;
    }
  }

  lemma {:induction false} ChartAnomsHold(charts: seq<CountryChart>, c: nat, g: nat, i: nat)
    requires c < |charts| && g < |charts[c].series| && i < |charts[c].series[g].members|
    ensures charts[c].series[g].members[i].anom in ChartAnoms(charts)
  {
    var n := |charts| - 1;
    var init := ChartAnoms(charts[..n]);
    var tail := SeriesAnoms(charts[n].series);
    assert ChartAnoms(charts) == init + tail;
    if c < n {
      assert charts[..n][c] == charts[c];
      ChartAnomsHold(charts[..n], c, g, i);
    } else {
      SeriesAnomsHold(charts[c].series, g, i);
    }
  }

  /** One country's chart: its scenario series smoothed, and their markers. */
  function CountryChartOf(cg: CountryGroup, smooth: int): (ch: CountryChart)
    requires smooth <= MaxInt32
    ensures ch.country == cg.country
    ensures |ch.series| == |cg.byScenario|
    ensures forall g :: 0 <= g < |ch.series| ==>
              ch.series[g].key == cg.byScenario[g].key &&
              ch.series[g].members == SmoothSeries(cg.byScenario[g].members, smooth)
    ensures ch.markers == Markers(ch.series)
  {
    var series := SmoothGroups(cg.byScenario, smooth);
    CountryChart(cg.country, series, Markers(series))
  }

  /** The charts of the grouped countries `cs`, one per country, in order. */
  function CountryCharts(cs: seq<CountryGroup>, smooth: int): (charts: seq<CountryChart>)
    requires smooth <= MaxInt32
    ensures |charts| == |cs| && forall c :: 0 <= c < |cs| ==> charts[c] == CountryChartOf(cs[c], smooth)
  {
    seq(|cs|, c requires 0 <= c < |cs| => CountryChartOf(cs[c], smooth))
  }

  /** The data `render` computes from `data` and `st`; `yTop` is the y domain's
      upper end before the call, which stays when automatic scaling is off. */
  function RenderChart(data: seq<Record>, st: State, yTop: real): (chart: Chart)
    requires st.smooth <= MaxInt32
    ensures !st.yAuto ==> chart.yTop == yTop
    ensures st.yAuto ==> chart.yTop >= 2.0
  {
    var charts := CountryCharts(GroupByCountryScenario(SelectRecords(data, st.countries, st.scenarios)), st.smooth);
    Chart(charts, if st.yAuto then YTop(YMax(ChartAnoms(charts))) else yTop)
  }

  /** Each country keeps its own series: every record of a country's chart is a
      smoothed record of that country, from a selected scenario. */
  lemma ChartSeriesPerCountry(data: seq<Record>, st: State, yTop: real, c: nat, g: nat, i: nat)
    requires st.smooth <= MaxInt32
    ensures var ch := RenderChart(data, st, yTop).countries;
          c < |ch| && g < |ch[c].series| && i < |ch[c].series[g].members| ==>
            var d := ch[c].series[g].members[i];
            d.country == ch[c].country && d.country in st.countries &&
            d.scenario == ch[c].series[g].key && d.scenario in st.scenarios
  {
    var ch := RenderChart(data, st, yTop).countries;
    if c < |ch| && g < |ch[c].series| && i < |ch[c].series[g].members| {
      var sel := SelectRecords(data, st.countries, st.scenarios);
      var cs := GroupByCountryScenario(sel);
      SelectionGroups(data, st.countries, st.scenarios);
      assert CountryGroupOf(cs[c], sel);
      var members := cs[c].byScenario[g].members;
      assert members[i] in members;
    }
  }

  /** `series` is the smoothing of a subsequence of `sel` holding only records of
      `country` and of the series' own scenario. */
  ghost predicate SmoothsOwnGroup(series: Group, country: string, sel: seq<Record>, smooth: int)
    requires smooth <= MaxInt32
  {
    exists m: seq<Record> :: series.members == SmoothSeries(m, smooth) &&
      IsSubsequence(m, sel) &&
      forall d :: d in m ==> d.country == country && d.scenario == series.key
  }

  /** The `g`-th series of a country's chart smooths that country's `g`-th
      scenario group. */
  lemma SeriesOfGroup(cg: CountryGroup, sel: seq<Record>, smooth: int, g: nat)
    requires smooth <= MaxInt32 && CountryGroupOf(cg, sel) && g < |cg.byScenario|
    ensures var ch := CountryChartOf(cg, smooth);
            g < |ch.series| && ch.series[g].key == cg.byScenario[g].key &&
            ch.series[g].members == SmoothSeries(cg.byScenario[g].members, smooth) &&
            SmoothsOwnGroup(ch.series[g], ch.country, sel, smooth)
  {
    var m := cg.byScenario[g].members;
    assert CountryChartOf(cg, smooth).series[g].members == SmoothSeries(m, smooth);
  }

  /** Nothing is averaged across countries or scenarios: each drawn series is the
      smoothing of selected records of its own country and scenario alone. */
  lemma ChartSeriesOwnGroup(data: seq<Record>, st: State, yTop: real, c: nat, g: nat)
    requires st.smooth <= MaxInt32
    ensures var ch := RenderChart(data, st, yTop).countries;
          c < |ch| && g < |ch[c].series| ==>
            SmoothsOwnGroup(ch[c].series[g], ch[c].country,
                            SelectRecords(data, st.countries, st.scenarios), st.smooth)
  {
    var ch := RenderChart(data, st, yTop).countries;
    if c < |ch| && g < |ch[c].series| {
      var sel := SelectRecords(data, st.countries, st.scenarios);
      var cs := GroupByCountryScenario(sel);
      ChartCountry(data, st, yTop, c);
      SeriesOfGroup(cs[c], sel, st.smooth, g);
    }
  }

  /** With automatic scaling the y domain leaves at least 0.2 above every value
      the chart draws. */
  lemma ChartHeadroom(data: seq<Record>, st: State, yTop: real, c: nat, g: nat, i: nat)
    requires st.smooth <= MaxInt32 && st.yAuto
    ensures var chart := RenderChart(data, st, yTop);
            var ch := chart.countries;
            c < |ch| && g < |ch[c].series| && i < |ch[c].series[g].members| ==>
              ch[c].series[g].members[i].anom + 0.2 <= chart.yTop
  {
    var charts := RenderChart(data, st, yTop).countries;
    if c < |charts| && g < |charts[c].series| && i < |charts[c].series[g].members| {
      ChartAnomsHold(charts, c, g, i);
      var values := ChartAnoms(charts);
      var j :| 0 <= j < |values| && values[j] == charts[c].series[g].members[i].anom;
    }
  }

  /** With no country selected the y domain falls back to `yMax = 2.5`, i.e. [0, 2.7]. */
  lemma EmptyChartFallback(data: seq<Record>, st: State, yTop: real)
    requires st.smooth <= MaxInt32 && st.yAuto && st.countries == []
    ensures RenderChart(data, st, yTop) == Chart([], 2.7)
  {
    SelectNothing(data, st.scenarios);
    assert GroupByCountryScenario([]) == [];
    assert Ceil(27.0) == 27;
  }

  /** Country `c` of the chart is the smoothed chart of the `c`-th country group. */
  lemma ChartCountry(data: seq<Record>, st: State, yTop: real, c: nat)
    requires st.smooth <= MaxInt32
    requires c < |RenderChart(data, st, yTop).countries|
    ensures var sel := SelectRecords(data, st.countries, st.scenarios);
            var cs := GroupByCountryScenario(sel);
            c < |cs| && CountryGroupOf(cs[c], sel) &&
            RenderChart(data, st, yTop).countries[c] == CountryChartOf(cs[c], st.smooth)
  {
  }

  /** Smoothing keeps the scenario keys, so they stay distinct. */
  lemma SmoothGroupsDistinct(gs: seq<Group>, smooth: int)
    requires smooth <= MaxInt32 && DistinctKeys(gs)
    ensures DistinctKeys(SmoothGroups(gs, smooth))
  {
  }

  /** At each Paris threshold, a scenario of a charted country carries a marker
      exactly when its smoothed series crosses there at a truthy year, at most one
      such marker each. */
  lemma ChartMarkers(data: seq<Record>, st: State, yTop: real, c: nat, g: nat, th: real)
    requires st.smooth <= MaxInt32 && th in YParis
    ensures var chs := RenderChart(data, st, yTop).countries;
            c < |chs| && g < |chs[c].series| ==>
              ((exists m :: m in chs[c].markers && m.scenario == chs[c].series[g].key && m.y == th)
                 <==> Truthy(CrossingYear(chs[c].series[g].members, th)))
    ensures var chs := RenderChart(data, st, yTop).countries;
            c < |chs| ==> OnePerScenarioThreshold(chs[c].markers)
  {
    var chs := RenderChart(data, st, yTop).countries;
    if c < |chs| {
      var sel := SelectRecords(data, st.countries, st.scenarios);
      var cs := GroupByCountryScenario(sel);
      ChartCountry(data, st, yTop, c);
      var ch := chs[c];
      SmoothGroupsDistinct(cs[c].byScenario, st.smooth);
      MarkersDistinct(ch.series);
      if g < |ch.series| {
        MarkerIff(ch.series, g, th);
      }
    }
  }
}
