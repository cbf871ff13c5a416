/** Rolling windows over a daily series, as pandas `rolling(w, min_periods=w)`
    computes them: the window of width `w` ending at position `e` has a value
    only when all its `w` days are present; `idxmax` then picks the FIRST end
    position whose (scaled) window value is largest. */
module Rolling {
  import opened Common

  /** The `w`-day window ending at `e` lies inside `x` and has no missing day. */
  predicate Full(x: seq<Option<real>>, e: int, w: nat)
  {
    w >= 1 && w - 1 <= e < |x| && AllPresent(x[e - w + 1 .. e + 1])
  }

  /** Sum of the `w`-day window ending at `e`. */
  function WindowSum(x: seq<Option<real>>, e: int, w: nat): real
    requires w - 1 <= e < |x|
  {
    SumPresent(x[e - w + 1 .. e + 1])
  }

  /** First end position in [j, hi) whose full window maximises
      `WindowSum * k`: pandas `idxmax` over a rolling sum scaled by k
      (k = 1/w for a rolling mean); None when no window in range is full. */
  function BestEndIn(x: seq<Option<real>>, w: nat, k: real, j: nat, hi: nat): (b: Option<nat>)
    requires hi <= |x|
    decreases hi - j
    ensures b.Some? ==> j <= b.value < hi && 1 <= w && w - 1 <= b.value
  {
    if j >= hi then None
    else
      var rest := BestEndIn(x, w, k, j + 1, hi);
      if Full(x, j, w) && (rest.None? || WindowSum(x, j, w) * k >= WindowSum(x, rest.value, w) * k)
      then Some(j)
      else rest
  }

  /** For a positive scale the end position found is full, its sum is at
      least that of every full window in range and strictly more than that
      of every earlier one; none is found exactly when no window in range is
      full. */
  lemma {:induction false} BestEndInSpec(x: seq<Option<real>>, w: nat, k: real, j: nat, hi: nat)
    requires hi <= |x| && k > 0.0
    decreases hi - j
    ensures var b := BestEndIn(x, w, k, j, hi);
      && (b.Some? ==> Full(x, b.value, w))
      && (b.Some? ==> forall e :: j <= e < hi && Full(x, e, w) ==> WindowSum(x, e, w) <= WindowSum(x, b.value, w))
      && (b.Some? ==> forall e :: j <= e < b.value && Full(x, e, w) ==> WindowSum(x, e, w) < WindowSum(x, b.value, w))
      && (b.None? <==> forall e :: j <= e < hi ==> !Full(x, e, w))
  {
    if j < hi {
      BestEndInSpec(x, w, k, j + 1, hi);
      var rest := BestEndIn(x, w, k, j + 1, hi);
      if Full(x, j, w) && rest.Some? {
        ScaledLe(WindowSum(x, j, w), WindowSum(x, rest.value, w), k);
        ScaledLe(WindowSum(x, rest.value, w), WindowSum(x, j, w), k);
      }
    }
  }

  /** pandas `idxmax` over the present values of x[j..]: the first position
      of the largest present value, None when every value is missing. */
  function FirstArgMaxPresent(x: seq<Option<real>>, j: nat): (b: Option<nat>)
    decreases |x| - j
    ensures b.Some? ==> j <= b.value < |x| && x[b.value].Some?
    ensures b.Some? ==> forall e :: j <= e < |x| && x[e].Some? ==> x[e].value <= x[b.value].value
    ensures b.Some? ==> forall e :: j <= e < b.value && x[e].Some? ==> x[e].value < x[b.value].value
    ensures b.None? <==> forall e :: j <= e < |x| ==> x[e].None?
  {
    if j >= |x| then None
    else
      var rest := FirstArgMaxPresent(x, j + 1);
      if x[j].Some? && (rest.None? || x[j].value >= x[rest.value].value)
      then Some(j)
      else rest
  }

  /** Scaling by a positive factor keeps and reflects the order. */
  lemma ScaledLe(a: real, b: real, k: real)
    requires k > 0.0
    ensures a * k <= b * k ==> a <= b
    ensures a * k < b * k ==> a < b
  {
    if a > b {
      assert (a - b) * k > 0.0;
    }
    if a >= b {
      assert (a - b) * k >= 0.0;
    }
  }

  /** Ranking windows by their sum scaled by a positive factor picks the
      same end position as ranking them by their sum. */
  lemma {:induction false} BestEndInScaleFree(x: seq<Option<real>>, w: nat, k: real, j: nat, hi: nat)
    requires hi <= |x| && k > 0.0
    decreases hi - j
    ensures BestEndIn(x, w, k, j, hi) == BestEndIn(x, w, 1.0, j, hi)
  {
    if j < hi {
      BestEndInScaleFree(x, w, k, j + 1, hi);
      var rest := BestEndIn(x, w, k, j + 1, hi);
      if Full(x, j, w) && rest.Some? {
        var a, b := WindowSum(x, j, w), WindowSum(x, rest.value, w);
        ScaledLe(a, b, k);
        ScaledLe(b, a, k);
        assert a * k >= b * k <==> a * 1.0 >= b * 1.0;
      }
    }
  }

  /** `rolling(dur).mean().idxmax()`: the last day of the first
      complete `dur`-day window with the largest mean. The mean is the sum
      divided by dur > 0, so the windows are ranked by their sums
      (MeanPeakEndIsMean). */
  function MeanPeakEnd(x: seq<Option<real>>, dur: nat): (m: Option<nat>)
    requires dur >= 1
    ensures m.Some? ==> dur - 1 <= m.value < |x|
  {
    BestEndIn(x, dur, 1.0, 0, |x|)
  }

  /** Ranking by the rolling mean, sum / dur, gives the same window. */
  lemma MeanPeakEndIsMean(x: seq<Option<real>>, dur: nat)
    requires dur >= 1
    ensures MeanPeakEnd(x, dur) == BestEndIn(x, dur, 1.0 / dur as real, 0, |x|)
  {
    BestEndInScaleFree(x, dur, 1.0 / dur as real, 0, |x|);
  }

  /** The window found is complete, has the largest sum (so the largest
      mean) of all complete windows and a larger one than every earlier
      complete window; none is found exactly when no window is complete. */
  lemma MeanPeakEndSpec(x: seq<Option<real>>, dur: nat)
    requires dur >= 1
    ensures var m := MeanPeakEnd(x, dur);
      && (m.Some? ==> Full(x, m.value, dur))
      && (m.Some? ==> forall e :: 0 <= e < |x| && Full(x, e, dur) ==>
            WindowSum(x, e, dur) <= WindowSum(x, m.value, dur))
      && (m.Some? ==> forall e :: 0 <= e < m.value && Full(x, e, dur) ==>
            WindowSum(x, e, dur) < WindowSum(x, m.value, dur))
      && (m.None? <==> forall e :: 0 <= e < |x| ==> !Full(x, e, dur))
  {
    BestEndInSpec(x, dur, 1.0, 0, |x|);
  }
}
