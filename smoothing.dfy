/** `smoothSeries` (main.js:41-49): a centred moving average whose windows shrink
    at both ends of the series. */
module Smoothing {
  import opened Js
  import opened Records

  /** The largest 32-bit signed integer: `k|0` is the identity up to here. */
  const MaxInt32: int := 0x7FFF_FFFF

  /** `r = (w-1)/2` with JavaScript's real division: a half-integer for even `w`. */
  function Radius(w: int): (r: real)
    ensures w % 2 == 1 ==> r == ((w - 1) / 2) as real
    ensures w % 2 == 0 ==> r == ((w - 1) / 2) as real + 0.5
  {
    (w - 1) as real / 2.0
  }

  /** The positions `slice` derives from `max(0, i-r)` and `min(len-1, i+r) + 1`:
      `w/2` places to the left of `i` and `(w-1)/2` to the right, clamped. */
  lemma WindowEnds(len: nat, i: nat, w: int)
    requires 2 <= w && i < len
    ensures RelativeIndex(MaxReal(0.0, i as real - Radius(w)), len) == Max(0, i - w / 2)
    ensures RelativeIndex(MinReal((len - 1) as real, i as real + Radius(w)) + 1.0, len)
         == Min(len, i + (w - 1) / 2 + 1)
  {
    var h := (w - 1) / 2;
    if w % 2 == 1 {
      assert w == 2 * h + 1;
      assert Radius(w) == h as real;
    } else {
      assert w == 2 * h + 2;
      assert Radius(w) == h as real + 0.5;
      assert w / 2 == h + 1;
    }
  }

  /** The records averaged into output position `i` for window width `w`:
      `arr.slice(max(0, i-r), min(len-1, i+r) + 1)`. Its closed form is the
      contiguous run from `i - w/2` up to `i + (w-1)/2`, clamped to the series. */
  function Window(arr: seq<Record>, i: nat, w: int): (win: seq<Record>)
    requires 2 <= w && i < |arr|
    ensures win == arr[Max(0, i - w / 2) .. Min(|arr|, i + (w - 1) / 2 + 1)]
  {
    var r := Radius(w);
    WindowEnds(|arr|, i, w);
    Slice(arr, MaxReal(0.0, i as real - r), MinReal((|arr| - 1) as real, i as real + r) + 1.0)
  }

  /** `smoothSeries(arr, k)`: for `k <= 1` the input itself; otherwise each record
      with its `anom` replaced by the mean `anom` of its window. */
  function SmoothSeries(arr: seq<Record>, k: int): (out: seq<Record>)
    requires k <= MaxInt32
    ensures k <= 1 ==> out == arr
    ensures |out| == |arr|
    ensures forall i :: 0 <= i < |arr| ==> out[i] == arr[i].(anom := out[i].anom)
  {
    if k <= 1 then arr
    else
      // `k|0` leaves a 32-bit integer unchanged
      var w := k;
      seq(|arr|, i requires 0 <= i < |arr| => SmoothedAt(arr, i, w))
  }

  /** Record `i` with its `anom` replaced by the mean `anom` of its window: the
      other fields are kept, and the new `anom` lies between the smallest and the
      largest `anom` of the (never empty) window. */
  function SmoothedAt(arr: seq<Record>, i: nat, w: int): (d: Record)
    requires 2 <= w && i < |arr|
    ensures d == arr[i].(anom := d.anom)
    ensures Anoms(Window(arr, i, w)) != []
    ensures MinOf(Anoms(Window(arr, i, w))).value <= d.anom <= MaxOf(Anoms(Window(arr, i, w))).value
  {
    arr[i].(anom := Mean(Anoms(Window(arr, i, w))))
  }

  /** The value `smoothSeries` puts at `i`: the mean of the `anom` values of the
      records from `i - k/2` up to `i + (k-1)/2`, clamped to the series. */
  lemma SmoothedIsWindowMean(arr: seq<Record>, k: int, i: nat)
    requires 1 < k <= MaxInt32 && i < |arr|
    ensures SmoothSeries(arr, k)[i].anom
         == Mean(Anoms(arr[Max(0, i - k / 2) .. Min(|arr|, i + (k - 1) / 2 + 1)]))
  {
    assert SmoothSeries(arr, k)[i] == SmoothedAt(arr, i, k);
  }

  /** For an odd width the window of `i` is the inclusive range
      `[max(0, i-r), min(len-1, i+r)]`: never empty, inside the series, holding `i`,
      shrinking at the ends rather than wrapping or padding. */
  lemma OddWindow(arr: seq<Record>, i: nat, w: int)
    requires 2 <= w && w % 2 == 1 && i < |arr|
    ensures var r := (w - 1) / 2;
            var lo, hi := Max(0, i - r), Min(|arr| - 1, i + r);
            0 <= lo <= i <= hi < |arr| &&
            Window(arr, i, w) == arr[lo .. hi + 1] &&
            |Window(arr, i, w)| <= w
  {
  }

  /** For an even width the window is `w` records wide away from the ends,
      reaching one place further to the left of `i` than to its right. */
  lemma EvenWindow(arr: seq<Record>, i: nat, w: int)
    requires 2 <= w && w % 2 == 0 && i < |arr|
    requires w / 2 <= i && i + w / 2 <= |arr|
    ensures Window(arr, i, w) == arr[i - w / 2 .. i + w / 2]
    ensures |Window(arr, i, w)| == w
  {
  }

  /** Each smoothed `anom` is the mean of its window, so it lies within every
      range that holds all the window's `anom` values; in particular between
      their minimum and maximum. */
  lemma SmoothedWithinWindow(arr: seq<Record>, k: int, i: nat, lo: real, hi: real)
    requires 1 < k <= MaxInt32 && i < |arr|
    requires Within(Anoms(Window(arr, i, k)), lo, hi)
    ensures lo <= SmoothSeries(arr, k)[i].anom <= hi
  {
    MeanBounds(Anoms(Window(arr, i, k)), lo, hi);
  }

  lemma SmoothedBetweenExtremes(arr: seq<Record>, k: int, i: nat)
    requires 1 < k <= MaxInt32 && i < |arr|
    ensures var a := Anoms(Window(arr, i, k));
            MinOf(a).Some? && MaxOf(a).Some? &&
            MinOf(a).value <= SmoothSeries(arr, k)[i].anom <= MaxOf(a).value
  {
    var a := Anoms(Window(arr, i, k));
    SmoothedWithinWindow(arr, k, i, MinOf(a).value, MaxOf(a).value);
  }

  /** Smoothing keeps every year, so a series ordered by year stays ordered. */
  lemma SmoothKeepsYearOrder(arr: seq<Record>, k: int)
    requires k <= MaxInt32
    requires forall j :: 0 < j < |arr| ==> arr[j - 1].year < arr[j].year
    ensures var out := SmoothSeries(arr, k);
            forall j :: 0 < j < |out| ==> out[j - 1].year < out[j].year
  {
  }

  /** `[1, 2, 3]` with `k = 3`: 1.5 at the left end, 2.0 in the middle, 2.5 at the right end. */
  lemma SmoothExample()
    ensures var arr := [Record("A", "ssp245", 2020, 1.0),
                        Record("A", "ssp245", 2021, 2.0),
                        Record("A", "ssp245", 2022, 3.0)];
            var out := SmoothSeries(arr, 3);
            out[0].anom == 1.5 && out[1].anom == 2.0 && out[2].anom == 2.5
  {
    var arr := [Record("A", "ssp245", 2020, 1.0),
                Record("A", "ssp245", 2021, 2.0),
                Record("A", "ssp245", 2022, 3.0)];
    var out := SmoothSeries(arr, 3);
    assert Window(arr, 0, 3) == arr[0..2];
    assert Window(arr, 1, 3) == arr[0..3];
    assert Window(arr, 2, 3) == arr[1..3];
    ExampleMeans(arr);
  }

  /** `[0, 0, 3]` with `k = 3` gives 1.0 in the middle: the mean of the window,
      not the midpoint of its extremes. */
  lemma SmoothMeanExample()
    ensures var arr := [Record("A", "ssp245", 2020, 0.0),
                        Record("A", "ssp245", 2021, 0.0),
                        Record("A", "ssp245", 2022, 3.0)];
            SmoothSeries(arr, 3)[1].anom == 1.0
  {
    var arr := [Record("A", "ssp245", 2020, 0.0),
                Record("A", "ssp245", 2021, 0.0),
                Record("A", "ssp245", 2022, 3.0)];
    SmoothedIsWindowMean(arr, 3, 1);
    assert Max(0, 1 - 3 / 2) == 0 && Min(3, 1 + (3 - 1) / 2 + 1) == 3;
    MiddleMean(arr);
  }

  lemma MiddleMean(arr: seq<Record>)
    requires |arr| == 3 && arr[0].anom == 0.0 && arr[1].anom == 0.0 && arr[2].anom == 3.0
    ensures Mean(Anoms(arr[0..3])) == 1.0
  {
    assert Anoms(arr[0..3]) == [0.0, 0.0, 3.0];
    assert Sum([0.0, 0.0, 3.0]) == 3.0 by {
      assert [0.0, 0.0, 3.0][1..] == [0.0, 3.0];
      assert [0.0, 3.0][1..] == [3.0];
      assert [3.0][1..] == [];
    }
  }

  lemma ExampleMeans(arr: seq<Record>)
    requires |arr| == 3 && arr[0].anom == 1.0 && arr[1].anom == 2.0 && arr[2].anom == 3.0
    ensures Mean(Anoms(arr[0..2])) == 1.5
    ensures Mean(Anoms(arr[0..3])) == 2.0
    ensures Mean(Anoms(arr[1..3])) == 2.5
  {
    assert Anoms(arr[0..2]) == [1.0, 2.0];
    assert Anoms(arr[0..3]) == [1.0, 2.0, 3.0];
    assert Anoms(arr[1..3]) == [2.0, 3.0];
    assert Sum([1.0, 2.0]) == 3.0 by {
      assert [1.0, 2.0][1..] == [2.0];
      assert [2.0][1..] == [];
    }
    assert Sum([2.0, 3.0]) == 5.0 by {
      assert [2.0, 3.0][1..] == [3.0];
      assert [3.0][1..] == [];
    }
    assert Sum([1.0, 2.0, 3.0]) == 6.0 by {
      assert [1.0, 2.0, 3.0][1..] == [2.0, 3.0];
    }
  }
}
