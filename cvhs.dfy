/** The hydrograph steps of the critical volume hydrograph (CVHS) method:
    cutting a hydrograph of a fixed length around each selected event, and
    scaling a hydrograph so that its largest `dur`-day mean flow becomes a
    given proxy flow. */
module Cvhs {
  import opened Common
  import opened Rolling

  // ---------------------------------------------------------------------
  // Extraction of a hydrograph of `hydroDur` days around an event.

  /** floor(s / 3); Dafny's division by a positive divisor rounds down. */
  function FloorThird(s: int): (f: int)
    ensures 3 * f <= s < 3 * f + 3
  {
    s / 3
  }

  /** ceil(2s / 3). */
  function CeilTwoThirds(s: int): (c: int)
    ensures 3 * c - 3 < 2 * s <= 3 * c
  {
    -((-2 * s) / 3)
  }

  /** The two parts of a shift add up to the shift: a third (rounded down)
      goes before the event, the rest after it. */
  lemma ShiftSplit(s: int)
    ensures FloorThird(s) + CeilTwoThirds(s) == s
  {
    var f := FloorThird(s);
    var c := CeilTwoThirds(s);
    assert 3 * (f + c) - 3 < 3 * s < 3 * (f + c) + 3;
  }

  /** First and last day of the hydrograph cut for an event that starts on
      `start`, ends on `end` and lasts `duration` days: the event is widened
      by floor(shift / 3) days before and ceil(2 shift / 3) days after, where
      shift = hydroDur - duration (a negative shift narrows it). */
  function ExtractBounds(start: int, end: int, duration: int, hydroDur: int): (b: (int, int))
    ensures b.0 == start - FloorThird(hydroDur - duration)
    ensures b.1 == end + CeilTwoThirds(hydroDur - duration)
  {
    var shift := hydroDur - duration;
    (start - FloorThird(shift), end + CeilTwoThirds(shift))
  }

  /** The inclusive label slice [lo, hi] of the daily series, clipped to the
      days the series has. */
  function ClippedSlice(q: seq<Option<real>>, lo: int, hi: int): (r: seq<Option<real>>)
    ensures 0 <= lo <= hi < |q| ==> r == q[lo .. hi + 1]
    ensures hi < lo ==> r == []
  {
    var a := if lo < 0 then 0 else if lo > |q| then |q| else lo;
    var b := if hi + 1 > |q| then |q| else if hi + 1 < a then a else hi + 1;
    q[a .. b]
  }

  /** The hydrograph of an event. */
  function Extract(q: seq<Option<real>>, start: int, end: int, duration: int, hydroDur: int): seq<Option<real>>
  {
    var b := ExtractBounds(start, end, duration, hydroDur);
    ClippedSlice(q, b.0, b.1)
  }

  /** For an event of `end - start + 1` days whose widened window lies inside
      the series, the hydrograph has exactly `hydroDur` days, taken in order
      from the window's first day, and (for a non-negative shift) covers the
      whole event. */
  lemma ExtractLength(q: seq<Option<real>>, start: int, end: int, duration: int, hydroDur: int)
    requires duration == end - start + 1 && hydroDur >= 1
    requires var b := ExtractBounds(start, end, duration, hydroDur); 0 <= b.0 && b.1 < |q|
    ensures var b := ExtractBounds(start, end, duration, hydroDur);
      && |Extract(q, start, end, duration, hydroDur)| == hydroDur
      && (forall k :: 0 <= k < hydroDur ==> Extract(q, start, end, duration, hydroDur)[k] == q[b.0 + k])
      && (hydroDur >= duration ==> b.0 <= start && end <= b.1)
  {
    ShiftSplit(hydroDur - duration);
  }

  // ---------------------------------------------------------------------
  // Scaling a hydrograph to a proxy flow.

  /** Why scaling a hydrograph fails. */
  datatype CvhsError =
    | NoFullWindow  // no `dur`-day window of the hydrograph is complete
    | ZeroMean      // the largest `dur`-day mean is zero (the ratio is infinite)

  function Times(v: Option<real>, f: real): Option<real>
  {
    if v.Some? then Some(v.value * f) else None
  }

  /** Every day multiplied by `f` (a missing day stays missing). */
  function ScaleAll(s: seq<Option<real>>, f: real): (r: seq<Option<real>>)
    ensures |r| == |s| && forall i :: 0 <= i < |s| ==> r[i] == Times(s[i], f)
  {
    seq(|s|, i requires 0 <= i < |s| => Times(s[i], f))
  }

  /** The days whose position lies in [lo, hi] multiplied by `f`, the others
      kept: pandas `x.loc[lo:hi] = x.loc[lo:hi] * f` on positional labels. */
  function ScaleRange(x: seq<Option<real>>, lo: int, hi: int, f: real): (r: seq<Option<real>>)
    ensures |r| == |x|
    ensures forall i :: 0 <= i < |x| ==> r[i] == if lo <= i <= hi then Times(x[i], f) else x[i]
  {
    seq(|x|, i requires 0 <= i < |x| => if lo <= i <= hi then Times(x[i], f) else x[i])
  }

  /** The in-place multiplication, one day at a time. */
  method ScaleInPlace(a: array<Option<real>>, lo: int, hi: int, f: real)
    modifies a
    ensures a[..] == ScaleRange(old(a[..]), lo, hi, f)
  {
    var first := if lo < 0 then 0 else lo;
    var stop := if hi + 1 > a.Length then a.Length else hi + 1;
    var i := first;
    while i < stop
      invariant first <= i && (i <= stop || stop < first)
      invariant forall j :: 0 <= j < a.Length ==>
        a[j] == if lo <= j <= hi && j < i then Times(old(a[j]), f) else old(a[j])
      decreases stop - i
    {
      a[i] := Times(a[i], f);
      i := i + 1;
    }
  }

  /** Scaling a run of days scales its sum. */
  lemma {:induction false} SumPresentScaled(s: seq<Option<real>>, f: real)
    ensures SumPresent(ScaleAll(s, f)) == f * SumPresent(s)
  {
    if s != [] {
      SumPresentScaled(s[1..], f);
      assert ScaleAll(s, f)[1..] == ScaleAll(s[1..], f);
      var v := if s[0].Some? then s[0].value else 0.0;
      assert SumPresent(ScaleAll(s, f)) == v * f + f * SumPresent(s[1..]);
      assert v * f + f * SumPresent(s[1..]) == f * (v + SumPresent(s[1..]));
    }
  }



  /** The scaled hydrograph as the source builds it: with `m` the end of the
      peak window and `vr = vol / mean`, the days m - dur + 1 .. m + 1 are
      multiplied by `vr` when dur > 1 (the inclusive label slice reaches one
      day past the window), only day m when dur = 1. */
  function ScaledAsWritten(x: seq<Option<real>>, dur: nat, vol: real): Result<seq<Option<real>>, CvhsError>
    requires dur >= 1
  {
    match MeanPeakEnd(x, dur)
    case None => Err(NoFullWindow)
    case Some(m) =>
      var mean := WindowSum(x, m, dur) / dur as real;
      if mean == 0.0 then Err(ZeroMean)
      else if dur > 1 then Ok(ScaleRange(x, m - dur + 1, m + 1, vol / mean))
      else Ok(ScaleRange(x, m, m, vol / mean))
  }

  /** The scaled hydrograph as evidently intended: only the days of the peak
      window, m - dur + 1 .. m, are multiplied. */
  function Scaled(x: seq<Option<real>>, dur: nat, vol: real): Result<seq<Option<real>>, CvhsError>
    requires dur >= 1
  {
    match MeanPeakEnd(x, dur)
    case None => Err(NoFullWindow)
    case Some(m) =>
      var mean := WindowSum(x, m, dur) / dur as real;
      if mean == 0.0 then Err(ZeroMean)
      else Ok(ScaleRange(x, m - dur + 1, m, vol / mean))
  }

  /** Scaling the window [m - dur + 1, m] (and perhaps later days) by
      vol / mean makes the window's mean equal to `vol`. */
  lemma WindowMeanAfterScaling(x: seq<Option<real>>, dur: nat, m: nat, hi: int, vol: real)
    requires dur >= 1 && Full(x, m, dur) && m <= hi
    requires WindowSum(x, m, dur) != 0.0
    ensures var y := ScaleRange(x, m - dur + 1, hi, vol / (WindowSum(x, m, dur) / dur as real));
      Full(y, m, dur) && WindowSum(y, m, dur) / dur as real == vol
  {
    var sum := WindowSum(x, m, dur);
    var vr := vol / (sum / dur as real);
    var y := ScaleRange(x, m - dur + 1, hi, vr);
    assert y[m - dur + 1 .. m + 1] == ScaleAll(x[m - dur + 1 .. m + 1], vr);
    SumPresentScaled(x[m - dur + 1 .. m + 1], vr);
    MeanRestored(vol, sum, dur as real);
  }

  lemma MeanRestored(vol: real, sum: real, d: real)
    requires sum != 0.0 && d > 0.0
    ensures (vol / (sum / d)) * sum / d == vol
  {
    var mean := sum / d;
    assert mean != 0.0;
    assert mean * d == sum;
    assert (vol / mean) * sum == vol * d;
  }

  /** What the source's scaling promises: the peak window's mean becomes the
      proxy flow `vol`. Every day before the window is unchanged, and so is
      every day from m + 2 on (from m + 1 on when dur = 1). */
  lemma ScaledAsWrittenMeets(x: seq<Option<real>>, dur: nat, vol: real)
    requires dur >= 1 && ScaledAsWritten(x, dur, vol).Ok?
    ensures var m := MeanPeakEnd(x, dur).value; var y := ScaledAsWritten(x, dur, vol).value;
      && |y| == |x|
      && Full(y, m, dur) && WindowSum(y, m, dur) / dur as real == vol
      && (forall i :: 0 <= i < |x| && (i < m - dur + 1 || i > m + 1) ==> y[i] == x[i])
      && (dur == 1 ==> forall i :: 0 <= i < |x| && i != m ==> y[i] == x[i])
  {
    var m := MeanPeakEnd(x, dur).value;
    MeanPeakEndSpec(x, dur);
    WindowMeanAfterScaling(x, dur, m, if dur > 1 then m + 1 else m, vol);
  }

  /** The discrepancy: with dur > 1 the day after the peak window is scaled
      as well, so a present, non-zero flow there changes whenever the proxy
      flow differs from the window's mean. */
  lemma ScaledAsWrittenExtraDay(x: seq<Option<real>>, dur: nat, vol: real)
    requires dur > 1 && ScaledAsWritten(x, dur, vol).Ok?
    requires var m := MeanPeakEnd(x, dur).value;
      && m + 1 < |x| && x[m + 1].Some? && x[m + 1].value != 0.0
      && vol != WindowSum(x, m, dur) / dur as real
    ensures var m := MeanPeakEnd(x, dur).value;
      ScaledAsWritten(x, dur, vol).value[m + 1] != x[m + 1]
  {
    var m := MeanPeakEnd(x, dur).value;
    var mean := WindowSum(x, m, dur) / dur as real;
    var v := x[m + 1].value;
    assert mean != 0.0;
    assert ScaledAsWritten(x, dur, vol) == Ok(ScaleRange(x, m - dur + 1, m + 1, vol / mean));
    ScaleChanges(v, vol, mean);
  }

  /** Multiplying a non-zero value by vol / mean changes it unless the two
      are equal. */
  lemma ScaleChanges(v: real, vol: real, mean: real)
    requires v != 0.0 && mean != 0.0 && vol != mean
    ensures v * (vol / mean) != v
  {
    var vr := vol / mean;
    assert vr * mean == vol;
    assert vr != 1.0;
  }

  /** The intended scaling: the peak window's mean becomes `vol` and every
      day outside the window is unchanged. */
  lemma ScaledMeets(x: seq<Option<real>>, dur: nat, vol: real)
    requires dur >= 1 && Scaled(x, dur, vol).Ok?
    ensures var m := MeanPeakEnd(x, dur).value; var y := Scaled(x, dur, vol).value;
      && |y| == |x|
      && Full(y, m, dur) && WindowSum(y, m, dur) / dur as real == vol
      && (forall i :: 0 <= i < |x| && (i < m - dur + 1 || i > m) ==> y[i] == x[i])
  {
    var m := MeanPeakEnd(x, dur).value;
    MeanPeakEndSpec(x, dur);
    WindowMeanAfterScaling(x, dur, m, m, vol);
  }

  /** The scaling step of the CVHS loop: the peak window is found, the ratio
      computed, and the days multiplied in place on a copy of the
      hydrograph. */
  method ScaleHydrograph(x: seq<Option<real>>, dur: nat, vol: real) returns (r: Result<seq<Option<real>>, CvhsError>)
    requires dur >= 1
    ensures r == Scaled(x, dur, vol)
  {
    var m := MeanPeakEnd(x, dur);
    if m.None? {
      return Err(NoFullWindow);
    }
    var mean := WindowSum(x, m.value, dur) / dur as real;
    if mean == 0.0 {
      return Err(ZeroMean);
    }
    assert Scaled(x, dur, vol) == Ok(ScaleRange(x, m.value - dur + 1, m.value, vol / mean));
    var a := new Option<real>[|x|](i requires 0 <= i < |x| => x[i]);
    assert a[..] == x;
    ScaleInPlace(a, m.value - dur + 1, m.value, vol / mean);
    return Ok(a[..]);
  }
}
