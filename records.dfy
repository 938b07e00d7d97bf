/** One row of the loaded anomaly table, and the arithmetic the chart performs on
    a sequence of rows (d3.mean and d3.max over their `anom` values). */
module Records {
  import opened Js

  /** A projected temperature anomaly (degrees C) of one country under one
      scenario in one year. */
  datatype Record = Record(country: string, scenario: string, year: int, anom: real)

  /** The `anom` column of a sequence of records, in order. */
  function Anoms(s: seq<Record>): (a: seq<real>)
    ensures |a| == |s|
    ensures forall j :: 0 <= j < |s| ==> a[j] == s[j].anom
  {
    if s == [] then [] else [s[0].anom] + Anoms(s[1..])
  }

  function Sum(s: seq<real>): real
  {
    if s == [] then 0.0 else s[0] + Sum(s[1..])
  }

  /** `d3.mean` of a non-empty sequence of numbers: a value between its smallest
      and its largest element. */
  function Mean(s: seq<real>): (m: real)
    requires s != []
    ensures MinOf(s).value <= m <= MaxOf(s).value
  {
    SumBounds(s, MinOf(s).value, MaxOf(s).value);
    QuotientBounds(Sum(s), |s| as real, MinOf(s).value, MaxOf(s).value);
    Sum(s) / |s| as real
  }

  /** Every value of `s` lies in `[lo, hi]`. */
  predicate Within(s: seq<real>, lo: real, hi: real)
  {
    forall j :: 0 <= j < |s| ==> lo <= s[j] <= hi
  }

  lemma {:induction false} SumBounds(s: seq<real>, lo: real, hi: real)
    requires Within(s, lo, hi)
    ensures |s| as real * lo <= Sum(s) <= |s| as real * hi
  {
    if s != [] {
      SumBounds(s[1..], lo, hi);
      assert |s| as real * lo == lo + (|s| - 1) as real * lo;
      assert |s| as real * hi == hi + (|s| - 1) as real * hi;
    }
  }

  /** Dividing a total bounded by `n*lo` and `n*hi` by `n` gives a value in `[lo, hi]`. */
  lemma QuotientBounds(sum: real, n: real, lo: real, hi: real)
    requires n > 0.0 && n * lo <= sum <= n * hi
    ensures lo <= sum / n <= hi
  {
    assert sum / n * n == sum;
  }

  /** A mean lies between any lower and upper bound of the averaged values. */
  lemma MeanBounds(s: seq<real>, lo: real, hi: real)
    requires s != [] && Within(s, lo, hi)
    ensures lo <= Mean(s) <= hi
  {
    SumBounds(s, lo, hi);
    QuotientBounds(Sum(s), |s| as real, lo, hi);
  }

  /** `d3.max`: the largest value, or `undefined` for an empty sequence. */
  function MaxOf(s: seq<real>): (m: Option<real>)
    ensures m.None? <==> s == []
    ensures m.Some? ==> m.value in s && forall j :: 0 <= j < |s| ==> s[j] <= m.value
  {
    if s == [] then None
    else match MaxOf(s[1..])
      case None => Some(s[0])
      case Some(rest) => Some(MaxReal(s[0], rest))
  }

  /** The smallest value, or `None` for an empty sequence. */
  function MinOf(s: seq<real>): (m: Option<real>)
    ensures m.None? <==> s == []
    ensures m.Some? ==> m.value in s && forall j :: 0 <= j < |s| ==> m.value <= s[j]
  {
    if s == [] then None
    else match MinOf(s[1..])
      case None => Some(s[0])
      case Some(rest) => Some(MinReal(s[0], rest))
  }
}
