/** `firstCrossing` (main.js:51-61): the linearly interpolated year at which a
    series first rises from below a threshold to at or above it. */
module Crossing {
  import opened Js
  import opened Records

  /** The pair `(series[i-1], series[i])` crosses `thresh` upward:
      `series[i-1].anom < thresh <= series[i].anom`. */
  predicate CrossesAt(series: seq<Record>, i: int, thresh: real)
  {
    1 <= i < |series| && series[i - 1].anom < thresh && series[i].anom >= thresh
  }

  /** No pair of the series crosses `thresh`. */
  predicate NeverCrosses(series: seq<Record>, thresh: real)
  {
    forall i :: 1 <= i < |series| ==> !CrossesAt(series, i, thresh)
  }

  /** The year where the segment between `series[i-1]` and `series[i]` meets
      `thresh`: `x0 + t*(x1-x0)` with `t = (thresh-y0)/(y1-y0)`. The crossing
      guarantees `y1 > y0`, so the division is defined. */
  function Interpolate(series: seq<Record>, i: int, thresh: real): (x: real)
    requires CrossesAt(series, i, thresh)
    ensures (x - series[i - 1].year as real) * (series[i].anom - series[i - 1].anom)
         == (thresh - series[i - 1].anom) * (series[i].year as real - series[i - 1].year as real)
  {
    var y0, y1 := series[i - 1].anom, series[i].anom;
    var x0, x1 := series[i - 1].year as real, series[i].year as real;
    var t := (thresh - y0) / (y1 - y0);
    assert t * (y1 - y0) == thresh - y0;
    assert (t * (x1 - x0)) * (y1 - y0) == (t * (y1 - y0)) * (x1 - x0);
    x0 + t * (x1 - x0)
  }

  /** The first crossing index at or after `from`, if any. */
  function FirstCrossingFrom(series: seq<Record>, thresh: real, from: nat): (r: Option<nat>)
    requires 1 <= from
    ensures r.Some? ==> from <= r.value && CrossesAt(series, r.value, thresh)
    ensures r.Some? ==> forall j :: from <= j < r.value ==> !CrossesAt(series, j, thresh)
    ensures r.None? <==> forall j :: from <= j < |series| ==> !CrossesAt(series, j, thresh)
    decreases |series| - from
  {
    if from >= |series| then None
    else if CrossesAt(series, from, thresh) then Some(from)
    else FirstCrossingFrom(series, thresh, from + 1)
  }

  /** The value `firstCrossing(series, thresh)` returns: `null` when no pair
      crosses, otherwise the interpolated year of the first crossing pair. */
  function CrossingYear(series: seq<Record>, thresh: real): (y: Option<real>)
    ensures y.None? <==> NeverCrosses(series, thresh)
  {
    match FirstCrossingFrom(series, thresh, 1)
    case None => None
    case Some(i) => Some(Interpolate(series, i, thresh))
  }

  /** The scan of main.js:52-60: left to right, returning at the first crossing pair. */
  method FirstCrossing(series: seq<Record>, thresh: real) returns (hit: Option<real>)
    ensures hit == CrossingYear(series, thresh)
  {
    var i := 1;
    while i < |series|
      invariant 1 <= i
      invariant forall j :: 1 <= j < i ==> !CrossesAt(series, j, thresh)
    {
      if series[i - 1].anom < thresh && series[i].anom >= thresh {
        var y0, y1 := series[i - 1].anom, series[i].anom;
        var x0, x1 := series[i - 1].year as real, series[i].year as real;
        var t := (thresh - y0) / (y1 - y0);
        assert CrossesAt(series, i, thresh);
        assert FirstCrossingFrom(series, thresh, 1) == Some(i);
        assert Interpolate(series, i, thresh) == x0 + t * (x1 - x0);
        return Some(x0 + t * (x1 - x0));
      }
      i := i + 1;
    }
    return None;
  }

  /** `null` exactly when the series has fewer than two records or no pair crosses. */
  lemma NullIffNoCrossing(series: seq<Record>, thresh: real)
    ensures CrossingYear(series, thresh).None? <==> (|series| < 2 || NeverCrosses(series, thresh))
  {
  }

  /** A returned year comes from the smallest crossing index: no earlier pair crosses. */
  lemma YearFromFirstCrossing(series: seq<Record>, thresh: real)
    requires CrossingYear(series, thresh).Some?
    ensures exists i :: CrossesAt(series, i, thresh)
                     && (forall j :: 1 <= j < i ==> !CrossesAt(series, j, thresh))
                     && CrossingYear(series, thresh).value == Interpolate(series, i, thresh)
  {
    var i := FirstCrossingFrom(series, thresh, 1).value;
    assert CrossesAt(series, i, thresh);
  }

  /** At a crossing pair `y0 < y1` and `t` lies in `(0, 1]`; with increasing years the
      year lies in `(x0, x1]`, and equals `x1` exactly when `thresh == y1`. */
  lemma InterpolationBounds(series: seq<Record>, i: int, thresh: real)
    requires CrossesAt(series, i, thresh)
    ensures series[i - 1].anom < series[i].anom
    ensures var t := (thresh - series[i - 1].anom) / (series[i].anom - series[i - 1].anom);
            0.0 < t <= 1.0 && (t == 1.0 <==> thresh == series[i].anom)
    ensures series[i - 1].year < series[i].year ==>
              series[i - 1].year as real < Interpolate(series, i, thresh) <= series[i].year as real &&
              (Interpolate(series, i, thresh) == series[i].year as real <==> thresh == series[i].anom)
  {
    var y0, y1 := series[i - 1].anom, series[i].anom;
    var x0, x1 := series[i - 1].year as real, series[i].year as real;
    var d := y1 - y0;
    var t := (thresh - y0) / d;
    assert t * d == thresh - y0;
    assert 0.0 < t <= 1.0;
    assert t == 1.0 <==> thresh == y1;
    if x0 < x1 {
      assert 0.0 < t * (x1 - x0) <= x1 - x0;
      assert t * (x1 - x0) == x1 - x0 <==> t == 1.0;
    }
  }

  /** 2020 at 1.0 and 2021 at 1.6 cross 1.5 at 2020 + 0.5/0.6 = 2020 5/6. */
  lemma CrossingExample()
    ensures CrossingYear([Record("A", "ssp245", 2020, 1.0), Record("A", "ssp245", 2021, 1.6)], 1.5)
         == Some(2020.0 + 5.0 / 6.0)
  {
    var s := [Record("A", "ssp245", 2020, 1.0), Record("A", "ssp245", 2021, 1.6)];
    assert CrossesAt(s, 1, 1.5);
    assert FirstCrossingFrom(s, 1.5, 1) == Some(1);
    assert (1.5 - 1.0) / (1.6 - 1.0) == 5.0 / 6.0;
    assert Interpolate(s, 1, 1.5) == 2020.0 + 5.0 / 6.0 * (2021.0 - 2020.0);
  }
}
