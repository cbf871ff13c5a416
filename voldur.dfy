/** Annual volume-duration maxima: for each water year (WY), either the
    year's total and largest day, or the `dur`-day window with the largest
    mean and the largest day inside it. Two versions exist: the one in
    src/vol_functions.py rolls within each WY; the older one in functions.py
    rolls over the whole series and restricts the ends to the WY. */
module VolDur {
  import opened Common
  import opened Rolling

  // The series is two columns of one DataFrame, day by day: the values `q`
  // (None when missing) and the water-year labels `wy`.

  /** Dates are positions in a gap-free daily series in date order, so the
      water-year labels, which grow with the date, never decrease. */
  predicate WySorted(wy: seq<int>)
  {
    forall i, j :: 0 <= i < j < |wy| ==> wy[i] <= wy[j]
  }

  /** The days [lo, hi] labelled `wy`. */
  datatype Block = Block(wy: int, lo: nat, hi: nat)

  /** Last position of the run of days that share day i's label. */
  function RunEnd(wy: seq<int>, i: nat): (j: nat)
    requires i < |wy|
    decreases |wy| - i
    ensures i <= j < |wy|
    ensures forall k :: i <= k <= j ==> wy[k] == wy[i]
    ensures j + 1 < |wy| ==> wy[j + 1] != wy[i]
  {
    if i + 1 < |wy| && wy[i + 1] == wy[i] then RunEnd(wy, i + 1) else i
  }

  /** The runs of equal labels from position i on, in order. */
  function BlocksFrom(wy: seq<int>, i: nat): (bs: seq<Block>)
    requires i <= |wy|
    decreases |wy| - i
    ensures bs == [] <==> i == |wy|
    ensures bs != [] ==> bs[0].lo == i && bs[0].wy == wy[i] && bs[|bs| - 1].hi == |wy| - 1
    ensures forall k :: 0 <= k < |bs| ==> i <= bs[k].lo <= bs[k].hi < |wy|
  {
    if i == |wy| then []
    else
      var j := RunEnd(wy, i);
      [Block(wy[i], i, j)] + BlocksFrom(wy, j + 1)
  }

  /** `data["wy"].unique()` with each label's days. */
  function Blocks(wy: seq<int>): (bs: seq<Block>)
    ensures forall k :: 0 <= k < |bs| ==> bs[k].lo <= bs[k].hi < |wy|
  {
    BlocksFrom(wy, 0)
  }

  /** Every day of a run carries its label, and each run is followed by the
      next day, with another label. */
  predicate RunShape(wy: seq<int>, bs: seq<Block>)
  {
    && (forall k :: 0 <= k < |bs| ==> bs[k].lo <= bs[k].hi < |wy|)
    && RunLabels(wy, bs)
    && RunsAdjacent(wy, bs)
  }

  predicate RunLabels(wy: seq<int>, bs: seq<Block>)
    requires forall k :: 0 <= k < |bs| ==> bs[k].hi < |wy|
  {
    forall k, p :: 0 <= k < |bs| && bs[k].lo <= p <= bs[k].hi ==> wy[p] == bs[k].wy
  }

  predicate RunsAdjacent(wy: seq<int>, bs: seq<Block>)
  {
    forall k :: 0 <= k < |bs| - 1 ==> Follows(bs[k], bs[k + 1])
  }

  /** Run `b` starts the day after run `a` ends, with another label. */
  predicate Follows(a: Block, b: Block)
  {
    b.lo == a.hi + 1 && b.wy != a.wy
  }

  /** Every day of a run carries the run's label. */
  lemma {:induction false} BlocksFromLabels(wy: seq<int>, i: nat)
    requires i <= |wy|
    decreases |wy| - i
    ensures RunLabels(wy, BlocksFrom(wy, i))
  {
    if i < |wy| {
      var j := RunEnd(wy, i);
      BlocksFromLabels(wy, j + 1);
      var rest := BlocksFrom(wy, j + 1);
      var bs := BlocksFrom(wy, i);
      assert bs == [Block(wy[i], i, j)] + rest;
      forall k, p | 0 <= k < |bs| && bs[k].lo <= p <= bs[k].hi
        ensures wy[p] == bs[k].wy
      {
        if k > 0 {
          assert bs[k] == rest[k - 1];
        }
      }
    }
  }

  /** Each run is followed by the next day, with another label. */
  lemma {:induction false} BlocksFromAdjacent(wy: seq<int>, i: nat)
    requires i <= |wy|
    decreases |wy| - i
    ensures RunsAdjacent(wy, BlocksFrom(wy, i))
  {
    if i < |wy| {
      var j := RunEnd(wy, i);
      BlocksFromAdjacent(wy, j + 1);
      var rest := BlocksFrom(wy, j + 1);
      assert BlocksFrom(wy, i) == [Block(wy[i], i, j)] + rest;
      AdjacentCons(wy, Block(wy[i], i, j), rest);
    }
  }

  /** A run followed by adjacent runs, the first of which starts the next
      day with another label, gives adjacent runs. */
  lemma AdjacentCons(wy: seq<int>, b: Block, rest: seq<Block>)
    requires RunsAdjacent(wy, rest)
    requires rest != [] ==> Follows(b, rest[0])
    ensures RunsAdjacent(wy, [b] + rest)
  {
    var bs := [b] + rest;
    forall k | 0 <= k < |bs| - 1
      ensures Follows(bs[k], bs[k + 1])
    {
      if k > 0 {
        assert bs[k] == rest[k - 1] && bs[k + 1] == rest[(k - 1) + 1];
      }
    }
  }

  /** Consecutive runs are adjacent, carry their own label on every day and
      differ in label from the next run. */
  lemma BlocksFromShape(wy: seq<int>, i: nat)
    requires i <= |wy|
    ensures RunShape(wy, BlocksFrom(wy, i))
  {
    BlocksFromLabels(wy, i);
    BlocksFromAdjacent(wy, i);
  }

  /** The shape BlocksFromShape establishes for the runs of the whole series. */
  predicate Tiling(wy: seq<int>, bs: seq<Block>)
  {
    && (bs == [] <==> |wy| == 0)
    && (bs != [] ==> bs[0].lo == 0 && bs[|bs| - 1].hi == |wy| - 1)
    && RunShape(wy, bs)
  }

  lemma BlocksTile(wy: seq<int>)
    ensures Tiling(wy, Blocks(wy))
  {
    BlocksFromShape(wy, 0);
  }

  /** On a series in date order the labels grow strictly from run to run. */
  lemma RunLabelsIncrease(wy: seq<int>, bs: seq<Block>)
    requires WySorted(wy) && Tiling(wy, bs)
    ensures forall k :: 0 <= k < |bs| - 1 ==> bs[k].wy < bs[k + 1].wy
  {
    forall k | 0 <= k < |bs| - 1
      ensures bs[k].wy < bs[k + 1].wy
    {
      var a, b := bs[k].hi, bs[k + 1].lo;
      assert wy[a] == bs[k].wy;
      assert wy[b] == bs[k + 1].wy;
      assert a < b;
    }
  }

  /** On a series in date order a run holds exactly the days of its label. */
  lemma RunIsLabel(wy: seq<int>, bs: seq<Block>, k: nat, p: nat)
    requires WySorted(wy) && Tiling(wy, bs)
    requires k < |bs| && p < |wy|
    requires forall i :: 0 <= i < |bs| - 1 ==> bs[i].wy < bs[i + 1].wy
    ensures wy[p] == bs[k].wy <==> bs[k].lo <= p <= bs[k].hi
  {
    if p < bs[k].lo {
      var q := bs[k - 1].hi;
      assert bs[k].lo == q + 1;
      assert wy[q] == bs[k - 1].wy;
      assert wy[p] <= wy[q];
    } else if p > bs[k].hi {
      var q := bs[k + 1].lo;
      assert wy[q] == bs[k + 1].wy;
      assert wy[q] <= wy[p];
    }
  }

  /** Each run holds exactly the days of its label, the labels are strictly
      increasing and every day's label is the label of a run. */
  predicate Partitioned(wy: seq<int>, bs: seq<Block>)
  {
    && (forall k :: 0 <= k < |bs| ==> bs[k].lo <= bs[k].hi < |wy|)
    && (forall k, p :: 0 <= k < |bs| && 0 <= p < |wy| ==>
          (wy[p] == bs[k].wy <==> bs[k].lo <= p <= bs[k].hi))
    && (forall k, m :: 0 <= k < m < |bs| ==> bs[k].wy < bs[m].wy)
    && (forall p :: 0 <= p < |wy| ==> exists k :: 0 <= k < |bs| && bs[k].wy == wy[p])
  }

  /** On a series in date order every run is exactly the set of days with its
      label, the labels are strictly increasing (so each appears once, as
      `unique` promises) and every day lies in a run. */
  lemma BlocksPartition(wy: seq<int>)
    requires WySorted(wy)
    ensures Partitioned(wy, Blocks(wy))
  {
    var bs := Blocks(wy);
    BlocksTile(wy);
    RunLabelsIncrease(wy, bs);
    forall k, m | 0 <= k < m < |bs|
      ensures bs[k].wy < bs[m].wy
    {
      IncreasingChain(bs, k, m);
    }
    forall k, p | 0 <= k < |bs| && 0 <= p < |wy|
      ensures wy[p] == bs[k].wy <==> bs[k].lo <= p <= bs[k].hi
    {
      RunIsLabel(wy, bs, k, p);
    }
    forall p | 0 <= p < |wy|
      ensures exists k :: 0 <= k < |bs| && bs[k].wy == wy[p]
    {
      var k := Covered(bs, |wy|, p);
      assert bs[k].wy == wy[p];
    }
  }

  /** A strictly increasing step relation is strictly increasing overall. */
  lemma {:induction false} IncreasingChain(bs: seq<Block>, k: nat, m: nat)
    requires k < m < |bs|
    requires forall i :: 0 <= i < |bs| - 1 ==> bs[i].wy < bs[i + 1].wy
    decreases m - k
    ensures bs[k].wy < bs[m].wy
  {
    if k + 1 < m {
      IncreasingChain(bs, k + 1, m);
    }
  }

  /** Runs that tile [0, n) cover every position below n. */
  lemma Covered(bs: seq<Block>, n: nat, p: nat) returns (k: nat)
    requires p < n
    requires bs != [] ==> bs[0].lo == 0 && bs[|bs| - 1].hi == n - 1
    requires n > 0 ==> bs != []
    requires forall k :: 0 <= k < |bs| ==> bs[k].lo <= bs[k].hi
    requires forall k :: 0 <= k < |bs| - 1 ==> bs[k + 1].lo == bs[k].hi + 1
    ensures k < |bs| && bs[k].lo <= p <= bs[k].hi
  {
    k := 0;
    while bs[k].hi < p
      invariant 0 <= k < |bs| && bs[k].lo <= p
      decreases |bs| - k
    {
      k := k + 1;
    }
  }

  /** `dur` is either "WY" (the whole water year) or a number of days. */
  datatype Duration = WholeYear | Days(days: nat)

  /** pandas `idxmax` over a WY whose every day is missing: the source then
      fails on the label it gets back. */
  datatype VolDurError = AllMissing(wy: int)

  /** A row of a table indexed by water year; None is the row of a WY that
      was skipped (left empty in the DataFrame). */
  datatype Entry<R> = Entry(wy: int, row: Option<R>)

  // ---------------------------------------------------------------------
  // The whole-year rows, shared by both versions

  /** A WY is skipped when more than this many of its days are missing:
      a tenth of 365 in src/vol_functions.py, 50 in functions.py. */
  const SrcMissingLimit: real := 365.0 * 0.1
  const LegacyMissingLimit: real := 50.0

  /** The whole-year row: the total of the present days (exact, before
      rounding), the number of days labelled with the WY, the day of the
      largest value and that value. */
  datatype YearRow = YearRow(total: real, count: nat, maxDay: nat, maxValue: real)

  /** The `annual_sum`, `annual_acft` and `max_<var>` columns of
      src/vol_functions.py; `annual_acft` is also the `annual_volume` column
      of functions.py and `max_<var>` its `peak` column. */
  function AnnualSum(r: YearRow): real { Round(r.total, 0) }
  function AnnualAcft(r: YearRow): real { Round(AcreFeet(r.total), 0) }
  function MaxColumn(r: YearRow): real { Round(r.maxValue, 0) }

  function YearRowOf(q: seq<Option<real>>, b: Block, limit: real): (r: Result<Option<YearRow>, VolDurError>)
    requires b.lo <= b.hi < |q|
  {
    var v := q[b.lo .. b.hi + 1];
    if CountMissing(v) as real > limit then Ok(None)
    else
      match FirstArgMaxPresent(v, 0)
      case None => Err(AllMissing(b.wy))
      case Some(k) => Ok(Some(YearRow(SumPresent(v), |v|, b.lo + k, v[k].value)))
  }

  /** A WY with more missing days than the limit is skipped; otherwise it
      fails exactly when every day is missing, and its row holds the total of
      the WY, its number of days and the first day of its largest value. */
  lemma YearRowMeets(q: seq<Option<real>>, b: Block, limit: real)
    requires b.lo <= b.hi < |q|
    ensures var r := YearRowOf(q, b, limit);
      && (r == Ok(None) <==> CountMissing(q[b.lo .. b.hi + 1]) as real > limit)
      && (r.Err? <==> CountMissing(q[b.lo .. b.hi + 1]) as real <= limit && forall p :: b.lo <= p <= b.hi ==> q[p].None?)
      && (r.Ok? && r.value.Some? ==>
            var row := r.value.value;
            && row.total == SumPresent(q[b.lo .. b.hi + 1])
            && row.count == b.hi - b.lo + 1
            && b.lo <= row.maxDay <= b.hi
            && q[row.maxDay] == Some(row.maxValue)
            && (forall p :: b.lo <= p <= b.hi && q[p].Some? ==> q[p].value <= row.maxValue)
            && (forall p :: b.lo <= p < row.maxDay && q[p].Some? ==> q[p].value < row.maxValue))
  {
    var v := q[b.lo .. b.hi + 1];
    assert forall p :: b.lo <= p <= b.hi ==> v[p - b.lo] == q[p];
  }

  /** The src/vol_functions.py skip rule: more than 36.5 missing days means
      37 or more. */
  lemma SrcSkipsAt37(q: seq<Option<real>>, b: Block)
    requires b.lo <= b.hi < |q|
    ensures YearRowOf(q, b, SrcMissingLimit) == Ok(None) <==> CountMissing(q[b.lo .. b.hi + 1]) >= 37
  {
    YearRowMeets(q, b, SrcMissingLimit);
  }

  // ---------------------------------------------------------------------
  // src/vol_functions.py: the rolling mean within each water year

  /** `max([0, int(dur / 2) - 1])`: how far the `mid` date lies before the
      window's end. */
  function MidBack(dur: nat): (n: nat)
    ensures dur >= 1 ==> n <= dur - 1
  {
    if dur / 2 >= 1 then dur / 2 - 1 else 0
  }

  /** The window row: the first and last day of the window with the largest
      mean, its exact mean, the `mid` date, the day of the largest value in the
      window and that value, and the number of days labelled with the WY. */
  datatype DurRow = DurRow(start: int, mean: real, mid: int, end: nat, maxDay: nat, maxValue: real, count: nat)

  /** The `avg_<var>` column. */
  function AvgColumn(r: DurRow): real { Round(r.mean, 0) }

  /** The last day of the first `dur`-day window of the WY with the largest
      mean (`dur_data.idxmax()`), None when no window of the WY is full. */
  function WyBestEnd(q: seq<Option<real>>, b: Block, dur: nat): (e: Option<nat>)
    requires b.lo <= b.hi < |q|
    requires dur >= 1
    ensures e.Some? ==> b.lo + dur - 1 <= e.value <= b.hi
  {
    match MeanPeakEnd(q[b.lo .. b.hi + 1], dur)
    case None => None
    case Some(k) => Some(b.lo + k)
  }

  /** The window of the WY's days ending at e is the window of the series
      ending at b.lo + e. */
  lemma BlockWindow(q: seq<Option<real>>, b: Block, dur: nat, e: nat)
    requires b.lo <= b.hi < |q|
    requires dur >= 1 && dur - 1 <= e <= b.hi - b.lo
    ensures var v := q[b.lo .. b.hi + 1];
      && (Full(v, e, dur) <==> Full(q, b.lo + e, dur))
      && WindowSum(v, e, dur) == WindowSum(q, b.lo + e, dur)
  {
    var v := q[b.lo .. b.hi + 1];
    var a, c := v[e - dur + 1 .. e + 1], q[b.lo + e - dur + 1 .. b.lo + e + 1];
    assert |a| == |c|;
    forall i | 0 <= i < |a|
      ensures a[i] == c[i]
    {
      assert a[i] == v[e - dur + 1 + i];
    }
    assert a == c;
  }

  /** The window found has no missing day; none is found exactly when no
      window inside the WY is full. */
  lemma WyBestEndFull(q: seq<Option<real>>, b: Block, dur: nat)
    requires b.lo <= b.hi < |q|
    requires dur >= 1
    ensures var e := WyBestEnd(q, b, dur);
      && (e.Some? ==> Full(q, e.value, dur))
      && (e.None? <==> forall x :: b.lo + dur - 1 <= x <= b.hi ==> !Full(q, x, dur))
  {
    var v := q[b.lo .. b.hi + 1];
    MeanPeakEndSpec(v, dur);
    forall x | b.lo + dur - 1 <= x <= b.hi
      ensures Full(q, x, dur) <==> Full(v, x - b.lo, dur)
    {
      BlockWindow(q, b, dur, x - b.lo);
    }
    var e := WyBestEnd(q, b, dur);
    if e.None? {
      forall x | b.lo + dur - 1 <= x <= b.hi
        ensures !Full(q, x, dur)
      {
        assert !Full(v, x - b.lo, dur);
      }
    } else {
      assert Full(v, e.value - b.lo, dur);
    }
  }

  /** One full window of the WY against the window found. */
  lemma WyWindowAtMost(q: seq<Option<real>>, b: Block, dur: nat, x: nat)
    requires b.lo <= b.hi < |q|
    requires dur >= 1
    requires WyBestEnd(q, b, dur).Some?
    requires b.lo + dur - 1 <= x <= b.hi && Full(q, x, dur)
    ensures var e := WyBestEnd(q, b, dur).value;
      && WindowSum(q, x, dur) <= WindowSum(q, e, dur)
      && (x < e ==> WindowSum(q, x, dur) < WindowSum(q, e, dur))
  {
    var v := q[b.lo .. b.hi + 1];
    MeanPeakEndSpec(v, dur);
    var e := WyBestEnd(q, b, dur).value;
    BlockWindow(q, b, dur, e - b.lo);
    BlockWindow(q, b, dur, x - b.lo);
    assert Full(v, x - b.lo, dur);
  }

  /** `data.loc[start:end].idxmax()`: the first day in [start, end] of the
      largest present value, None when all are missing. */
  function WindowMax(q: seq<Option<real>>, start: nat, end: nat): (m: Option<nat>)
    requires start <= end < |q|
    ensures m.Some? ==> start <= m.value <= end && q[m.value].Some?
  {
    match FirstArgMaxPresent(q[start .. end + 1], 0)
    case None => None
    case Some(k) => Some(start + k)
  }

  /** The day found holds the largest present value of [start, end], and a
      strictly larger one than every earlier day; none is found exactly when
      every day is missing. */
  lemma WindowMaxSpec(q: seq<Option<real>>, start: nat, end: nat)
    requires start <= end < |q|
    ensures var m := WindowMax(q, start, end);
      && (m.None? <==> forall p :: start <= p <= end ==> q[p].None?)
      && (m.Some? ==> forall p :: start <= p <= end && q[p].Some? ==> q[p].value <= q[m.value].value)
      && (m.Some? ==> forall p :: start <= p < m.value && q[p].Some? ==> q[p].value < q[m.value].value)
  {
    var w := q[start .. end + 1];
    assert forall p :: start <= p <= end ==> w[p - start] == q[p];
  }

  /** A full window has a largest day. */
  lemma FullWindowMax(q: seq<Option<real>>, end: nat, dur: nat)
    requires Full(q, end, dur)
    ensures WindowMax(q, end - (dur - 1), end).Some?
  {
    WindowMaxSpec(q, end - (dur - 1), end);
    assert q[end - dur + 1 .. end + 1][0] == q[end - (dur - 1)];
  }

  function DurRowOf(q: seq<Option<real>>, b: Block, dur: nat): (r: Option<DurRow>)
    requires b.lo <= b.hi < |q|
    requires dur >= 1
  {
    match WyBestEnd(q, b, dur)
    case None => None
    case Some(end) => DurRowAt(q, b, dur, end)
  }

  /** The row for the window of the WY ending at `end`: its mean, the day
      the peak flow falls on and that flow, and the WY's day count. */
  function DurRowAt(q: seq<Option<real>>, b: Block, dur: nat, end: nat): (r: Option<DurRow>)
    requires b.lo + dur - 1 <= end <= b.hi < |q|
    requires dur >= 1
  {
    var start := end - (dur - 1);
    match WindowMax(q, start, end)
    case None => None
    case Some(m) =>
      Some(DurRow(start, WindowSum(q, end, dur) / dur as real, end - MidBack(dur), end, m, q[m].value, b.hi - b.lo + 1))
  }

  /** A row exists exactly when some `dur`-day window of the WY has no missing
      day. */
  lemma DurRowSkipped(q: seq<Option<real>>, b: Block, dur: nat)
    requires b.lo <= b.hi < |q|
    requires dur >= 1
    ensures DurRowOf(q, b, dur).None? <==> forall x :: b.lo + dur - 1 <= x <= b.hi ==> !Full(q, x, dur)
  {
    WyBestEndFull(q, b, dur);
    var e := WyBestEnd(q, b, dur);
    if e.Some? {
      FullWindowMax(q, e.value, dur);
    }
  }

  /** The row's window lies inside the WY, is `dur` days long and has no
      missing day; `avg` is its mean, `mid` lies inside it and `count` is the
      number of days of the WY. */
  lemma DurRowWindow(q: seq<Option<real>>, b: Block, dur: nat)
    requires b.lo <= b.hi < |q|
    requires dur >= 1
    requires DurRowOf(q, b, dur).Some?
    ensures var row := DurRowOf(q, b, dur).value;
      && b.lo <= row.start && row.end <= b.hi
      && row.end - row.start == dur - 1
      && Full(q, row.end, dur)
      && row.mean == WindowSum(q, row.end, dur) / dur as real
      && row.start <= row.mid <= row.end
      && row.count == b.hi - b.lo + 1
  {
    WyBestEndFull(q, b, dur);
  }

  /** The row's window has the largest sum (so the largest mean) of all full
      windows inside the WY, and a strictly larger one than every earlier
      full window. */
  lemma DurRowMaximal(q: seq<Option<real>>, b: Block, dur: nat)
    requires b.lo <= b.hi < |q|
    requires dur >= 1
    requires DurRowOf(q, b, dur).Some?
    ensures var row := DurRowOf(q, b, dur).value;
      && (forall x :: b.lo + dur - 1 <= x <= b.hi && Full(q, x, dur) ==>
            WindowSum(q, x, dur) <= WindowSum(q, row.end, dur))
      && (forall x :: b.lo + dur - 1 <= x < row.end && Full(q, x, dur) ==>
            WindowSum(q, x, dur) < WindowSum(q, row.end, dur))
  {
    forall x | b.lo + dur - 1 <= x <= b.hi && Full(q, x, dur)
      ensures var e := WyBestEnd(q, b, dur).value;
        && WindowSum(q, x, dur) <= WindowSum(q, e, dur)
        && (x < e ==> WindowSum(q, x, dur) < WindowSum(q, e, dur))
    {
      WyWindowAtMost(q, b, dur, x);
    }
  }

  /** `max` is the first day of the largest value inside the row's window. */
  lemma DurRowPeak(q: seq<Option<real>>, b: Block, dur: nat)
    requires b.lo <= b.hi < |q|
    requires dur >= 1
    requires DurRowOf(q, b, dur).Some?
    ensures var row := DurRowOf(q, b, dur).value;
      FirstLargest(q, row.start, row.end, row.maxDay, row.maxValue)
  {
    DurRowAtPeak(q, b, dur, WyBestEnd(q, b, dur).value);
  }

  lemma DurRowAtPeak(q: seq<Option<real>>, b: Block, dur: nat, end: nat)
    requires b.lo + dur - 1 <= end <= b.hi < |q|
    requires dur >= 1
    requires DurRowAt(q, b, dur, end).Some?
    ensures var row := DurRowAt(q, b, dur, end).value;
      FirstLargest(q, row.start, row.end, row.maxDay, row.maxValue)
  {
    var m := WindowMax(q, end - (dur - 1), end).value;
    var row := DurRowAt(q, b, dur, end).value;
    assert row.start == end - (dur - 1) && row.end == end && row.maxDay == m && row.maxValue == q[m].value;
    WindowMaxFacts(q, row.start, row.end, row.maxDay, row.maxValue);
  }

  /** Day m of [start, end] holds `v`, the largest present value of the
      window, and every earlier day of the window holds less. */
  predicate FirstLargest(q: seq<Option<real>>, start: int, end: int, m: int, v: real)
  {
    && 0 <= start <= m <= end < |q|
    && q[m] == Some(v)
    && (forall p :: start <= p <= end && q[p].Some? ==> q[p].value <= v)
    && (forall p :: start <= p < m && q[p].Some? ==> q[p].value < v)
  }

  /** The day WindowMax finds, with its value `v`, is the first largest. */
  lemma WindowMaxFacts(q: seq<Option<real>>, start: int, end: nat, m: nat, v: real)
    requires 0 <= start <= end < |q| && WindowMax(q, start, end) == Some(m) && q[m] == Some(v)
    ensures FirstLargest(q, start, end, m, v)
  {
    WindowMaxSpec(q, start, end);
  }

  // ---------------------------------------------------------------------
  // functions.py: the rolling mean over the whole series

  /** The row of the older duration table: the `date` column (the first day
      of the window), the window's last day, its exact mean and its largest
      value (`max_flows`, the rolling maximum). */
  datatype LegacyDurRow = LegacyDurRow(date: int, end: nat, mean: real, peak: real)

  /** The `avg_flow` and `peak` columns. */
  function AvgFlow(r: LegacyDurRow): real { Round(r.mean, 0) }
  function PeakFlow(r: LegacyDurRow): real { Round(r.peak, 0) }

  /** `dur_flows.loc[data["wy"] == wy].idxmax()`: the first day of the WY that
      ends a full window of the whole series with the largest mean. The
      window may begin in the previous WY. Windows are ranked by their sums,
      which rank them as their means do (LegacyBestEndIsMean). */
  function LegacyBestEnd(q: seq<Option<real>>, b: Block, dur: nat): (e: Option<nat>)
    requires b.lo <= b.hi < |q|
    requires dur >= 1
    ensures e.Some? ==> b.lo <= e.value <= b.hi && dur - 1 <= e.value
  {
    BestEndIn(q, dur, 1.0, b.lo, b.hi + 1)
  }

  /** Ranking by the rolling mean, sum / dur, gives the same day. */
  lemma LegacyBestEndIsMean(q: seq<Option<real>>, b: Block, dur: nat)
    requires b.lo <= b.hi < |q|
    requires dur >= 1
    ensures LegacyBestEnd(q, b, dur) == BestEndIn(q, dur, 1.0 / dur as real, b.lo, b.hi + 1)
  {
    BestEndInScaleFree(q, dur, 1.0 / dur as real, b.lo, b.hi + 1);
  }

  /** The day found ends a full window whose sum is the largest of all full
      windows ending in the WY, and strictly larger than that of every earlier
      one; none is found exactly when no window ending in the WY is full. */
  lemma LegacyBestEndSpec(q: seq<Option<real>>, b: Block, dur: nat)
    requires b.lo <= b.hi < |q|
    requires dur >= 1
    ensures var e := LegacyBestEnd(q, b, dur);
      && (e.Some? ==> Full(q, e.value, dur))
      && (e.Some? ==> forall x :: b.lo <= x <= b.hi && Full(q, x, dur) ==> WindowSum(q, x, dur) <= WindowSum(q, e.value, dur))
      && (e.Some? ==> forall x :: b.lo <= x < e.value && Full(q, x, dur) ==> WindowSum(q, x, dur) < WindowSum(q, e.value, dur))
      && (e.None? <==> forall x :: b.lo <= x <= b.hi ==> !Full(q, x, dur))
  {
    BestEndInSpec(q, dur, 1.0, b.lo, b.hi + 1);
  }

  function LegacyDurRowOf(q: seq<Option<real>>, b: Block, dur: nat): (r: Option<LegacyDurRow>)
    requires b.lo <= b.hi < |q|
    requires dur >= 1
  {
    if CountMissing(q[b.lo .. b.hi + 1]) as real > LegacyMissingLimit then None
    else
      match LegacyBestEnd(q, b, dur)
      case None => None
      case Some(e) => LegacyDurRowAt(q, dur, e)
  }

  /** The legacy row for the window ending at `e`: its first day, its mean
      and its largest value. */
  function LegacyDurRowAt(q: seq<Option<real>>, dur: nat, e: nat): (r: Option<LegacyDurRow>)
    requires dur - 1 <= e < |q|
    requires dur >= 1
  {
    match WindowMax(q, e - (dur - 1), e)
    case None => None
    case Some(m) => Some(LegacyDurRow(e - (dur - 1), e, WindowSum(q, e, dur) / dur as real, q[m].value))
  }

  /** A WY is skipped exactly when more than 50 of its days are missing or no
      full window of the series ends in it. */
  lemma LegacyDurRowSkipped(q: seq<Option<real>>, b: Block, dur: nat)
    requires b.lo <= b.hi < |q|
    requires dur >= 1
    ensures LegacyDurRowOf(q, b, dur).None? <==>
      CountMissing(q[b.lo .. b.hi + 1]) > 50 || forall x :: b.lo <= x <= b.hi ==> !Full(q, x, dur)
  {
    var n := CountMissing(q[b.lo .. b.hi + 1]);
    assert n as real > LegacyMissingLimit <==> n > 50;
    if n <= 50 {
      LegacyBestEndSpec(q, b, dur);
      var e := LegacyBestEnd(q, b, dur);
      if e.Some? {
        FullWindowMax(q, e.value, dur);
      }
    }
  }

  /** The row's window ends in the WY, is full, and has the largest mean of
      the full windows ending in the WY (strictly larger than every earlier
      one); `date` is its first day and `avg_flow` its mean. */
  lemma LegacyDurRowMeets(q: seq<Option<real>>, b: Block, dur: nat)
    requires b.lo <= b.hi < |q|
    requires dur >= 1
    requires LegacyDurRowOf(q, b, dur).Some?
    ensures var row := LegacyDurRowOf(q, b, dur).value;
      && b.lo <= row.end <= b.hi
      && row.date == row.end - (dur - 1)
      && Full(q, row.end, dur)
      && row.mean == WindowSum(q, row.end, dur) / dur as real
      && (forall x :: b.lo <= x <= b.hi && Full(q, x, dur) ==> WindowSum(q, x, dur) <= WindowSum(q, row.end, dur))
      && (forall x :: b.lo <= x < row.end && Full(q, x, dur) ==> WindowSum(q, x, dur) < WindowSum(q, row.end, dur))
  {
    LegacyBestEndSpec(q, b, dur);
  }

  /** `peak` is the largest value of the row's window, which has no missing
      day. */
  lemma LegacyDurRowPeak(q: seq<Option<real>>, b: Block, dur: nat)
    requires b.lo <= b.hi < |q|
    requires dur >= 1
    requires LegacyDurRowOf(q, b, dur).Some?
    ensures var row := LegacyDurRowOf(q, b, dur).value;
      && row.date >= 0 && row.end < |q|
      && (exists p :: row.date <= p <= row.end && q[p] == Some(row.peak))
      && (forall p :: row.date <= p <= row.end ==> q[p].Some? && q[p].value <= row.peak)
  {
    LegacyBestEndSpec(q, b, dur);
    LegacyDurRowAtPeak(q, dur, LegacyBestEnd(q, b, dur).value);
  }

  lemma LegacyDurRowAtPeak(q: seq<Option<real>>, dur: nat, e: nat)
    requires dur - 1 <= e < |q|
    requires dur >= 1
    requires Full(q, e, dur)
    requires LegacyDurRowAt(q, dur, e).Some?
    ensures var row := LegacyDurRowAt(q, dur, e).value;
      && row.date >= 0 && row.end < |q|
      && (exists p :: row.date <= p <= row.end && q[p] == Some(row.peak))
      && (forall p :: row.date <= p <= row.end ==> q[p].Some? && q[p].value <= row.peak)
  {
    var m := WindowMax(q, e - (dur - 1), e).value;
    var row := LegacyDurRowAt(q, dur, e).value;
    assert row.date == e - (dur - 1) && row.end == e && row.peak == q[m].value;
    WindowMaxSpec(q, e - (dur - 1), e);
    FullDays(q, e, dur);
  }

  /** Every day of a full window is present. */
  lemma FullDays(q: seq<Option<real>>, e: nat, dur: nat)
    requires Full(q, e, dur)
    ensures forall p :: e - (dur - 1) <= p <= e ==> q[p].Some?
  {
    forall p | e - (dur - 1) <= p <= e
      ensures q[p].Some?
    {
      assert q[e - dur + 1 .. e + 1][p - (e - dur + 1)] == q[p];
    }
  }

  // ---------------------------------------------------------------------
  // The loops over the water years

  /** One entry per WY, in order of first appearance, each holding its
      whole-year row. */
  predicate YearTableOf(q: seq<Option<real>>, wy: seq<int>, limit: real, t: seq<Entry<YearRow>>)
    requires |q| == |wy|
  {
    var bs := Blocks(wy);
    && |t| == |bs|
    && forall k :: 0 <= k < |bs| ==>
         YearRowOf(q, bs[k], limit).Ok? && t[k] == Entry(bs[k].wy, YearRowOf(q, bs[k], limit).value)
  }

  /** One entry per WY, in order of first appearance, each holding its
      window row (src/vol_functions.py). */
  predicate WindowTableOf(q: seq<Option<real>>, wy: seq<int>, dur: nat, t: seq<Entry<DurRow>>)
    requires |q| == |wy| && dur >= 1
  {
    var bs := Blocks(wy);
    |t| == |bs| && forall k :: 0 <= k < |bs| ==> t[k] == Entry(bs[k].wy, DurRowOf(q, bs[k], dur))
  }

  /** One entry per WY, in order of first appearance, each holding its
      window row (functions.py). */
  predicate LegacyWindowTableOf(q: seq<Option<real>>, wy: seq<int>, dur: nat, t: seq<Entry<LegacyDurRow>>)
    requires |q| == |wy| && dur >= 1
  {
    var bs := Blocks(wy);
    |t| == |bs| && forall k :: 0 <= k < |bs| ==> t[k] == Entry(bs[k].wy, LegacyDurRowOf(q, bs[k], dur))
  }

  /** The whole-year loop of both versions: fills the rows WY by WY and stops
      at the first WY whose every day is missing. */
  method YearRows(q: seq<Option<real>>, wy: seq<int>, limit: real) returns (r: Result<seq<Entry<YearRow>>, VolDurError>)
    requires |q| == |wy|
    ensures r.Ok? <==> forall k :: 0 <= k < |Blocks(wy)| ==> YearRowOf(q, Blocks(wy)[k], limit).Ok?
    ensures r.Ok? ==> YearTableOf(q, wy, limit, r.value)
    ensures r.Err? ==> exists k :: 0 <= k < |Blocks(wy)| && YearRowOf(q, Blocks(wy)[k], limit) == Err(r.error)
  {
    var bs := Blocks(wy);
    var rows: seq<Entry<YearRow>> := [];
    for k := 0 to |bs|
      invariant |rows| == k
      invariant forall i :: 0 <= i < k ==>
        YearRowOf(q, bs[i], limit).Ok? && rows[i] == Entry(bs[i].wy, YearRowOf(q, bs[i], limit).value)
    {
      var row := YearRowOf(q, bs[k], limit);
      if row.Err? {
        return Err(row.error);
      }
      rows := rows + [Entry(bs[k].wy, row.value)];
    }
    return Ok(rows);
  }

  /** The tables of src/vol_functions.py `analyze_voldur`. */
  datatype VolDurTable = YearTable(years: seq<Entry<YearRow>>) | WindowTable(windows: seq<Entry<DurRow>>)

  /** src/vol_functions.py `analyze_voldur`: by whole WY, or by the `dur`-day
      window with the largest mean inside each WY. */
  method AnalyzeVolDur(q: seq<Option<real>>, wy: seq<int>, dur: Duration) returns (r: Result<VolDurTable, VolDurError>)
    requires |q| == |wy|
    requires dur.Days? ==> dur.days >= 1
    ensures dur.WholeYear? ==>
      && (r.Ok? <==> forall k :: 0 <= k < |Blocks(wy)| ==> YearRowOf(q, Blocks(wy)[k], SrcMissingLimit).Ok?)
      && (r.Ok? ==> r.value.YearTable? && YearTableOf(q, wy, SrcMissingLimit, r.value.years))
    ensures dur.Days? ==> r.Ok? && r.value.WindowTable? && WindowTableOf(q, wy, dur.days, r.value.windows)
  {
    if dur.WholeYear? {
      var years := YearRows(q, wy, SrcMissingLimit);
      if years.Err? {
        return Err(years.error);
      }
      return Ok(YearTable(years.value));
    }
    var bs := Blocks(wy);
    var rows: seq<Entry<DurRow>> := [];
    for k := 0 to |bs|
      invariant |rows| == k
      invariant forall i :: 0 <= i < k ==> rows[i] == Entry(bs[i].wy, DurRowOf(q, bs[i], dur.days))
    {
      rows := rows + [Entry(bs[k].wy, DurRowOf(q, bs[k], dur.days))];
    }
    return Ok(WindowTable(rows));
  }

  /** The tables of functions.py `analyze_voldur`. */
  datatype LegacyTable = LegacyYears(years: seq<Entry<YearRow>>) | LegacyWindows(windows: seq<Entry<LegacyDurRow>>)

  /** functions.py `analyze_voldur`: by whole WY, or by the `dur`-day window
      of the whole series with the largest mean among those ending in each
      WY. */
  method AnalyzeVolDurLegacy(q: seq<Option<real>>, wy: seq<int>, dur: Duration) returns (r: Result<LegacyTable, VolDurError>)
    requires |q| == |wy|
    requires dur.Days? ==> dur.days >= 1
    ensures dur.WholeYear? ==>
      && (r.Ok? <==> forall k :: 0 <= k < |Blocks(wy)| ==> YearRowOf(q, Blocks(wy)[k], LegacyMissingLimit).Ok?)
      && (r.Ok? ==> r.value.LegacyYears? && YearTableOf(q, wy, LegacyMissingLimit, r.value.years))
    ensures dur.Days? ==> r.Ok? && r.value.LegacyWindows? && LegacyWindowTableOf(q, wy, dur.days, r.value.windows)
  {
    if dur.WholeYear? {
      var years := YearRows(q, wy, LegacyMissingLimit);
      if years.Err? {
        return Err(years.error);
      }
      return Ok(LegacyYears(years.value));
    }
    var bs := Blocks(wy);
    var rows: seq<Entry<LegacyDurRow>> := [];
    for k := 0 to |bs|
      invariant |rows| == k
      invariant forall i :: 0 <= i < k ==> rows[i] == Entry(bs[i].wy, LegacyDurRowOf(q, bs[i], dur.days))
    {
      rows := rows + [Entry(bs[k].wy, LegacyDurRowOf(q, bs[k], dur.days))];
    }
    return Ok(LegacyWindows(rows));
  }
}
