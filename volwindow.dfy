/** The volume-window critical duration of one event: for every candidate
    width w from 1 to the event's duration, the largest w-day inflow volume
    inside the event is compared with the inflow volume from that window's
    start to the day the reservoir storage peaks; the critical duration is
    the width whose ratio of the two is closest to one. */
module VolWindow {
  import opened Common
  import opened Rolling

  /** The candidate widths as the source builds them: 1, then 2, 3, ... up to
      duration - 1, then the duration itself (so a one-day event lists width
      1 twice). */
  method CandidateWidths(duration: int) returns (ws: seq<int>)
    requires duration >= 1
    ensures duration >= 2 ==> |ws| == duration && forall i :: 0 <= i < |ws| ==> ws[i] == i + 1
    ensures duration == 1 ==> ws == [1, 1]
  {
    var ts := 1;
    ws := [ts];
    while ts + 1 <= duration - 1
      invariant 1 <= ts <= (if duration >= 2 then duration - 1 else 1)
      invariant |ws| == ts && forall i :: 0 <= i < |ws| ==> ws[i] == i + 1
      decreases duration - ts
    {
      ts := ts + 1;
      ws := ws + [ts];
    }
    ws := ws + [duration];
  }

  /** The ratio of the two volumes, with the values a float division gives
      when the window volume rounds to zero. */
  datatype Ratio = Finite(value: real) | Infinite | NotANumber

  function VolumeRatio(volPeak: real, vol: real): (r: Ratio)
    ensures vol != 0.0 ==> r == Finite(volPeak / vol)
    ensures vol == 0.0 ==> (r.NotANumber? <==> volPeak == 0.0)
  {
    if vol != 0.0 then Finite(volPeak / vol)
    else if volPeak == 0.0 then NotANumber
    else Infinite
  }

  /** |vw - 1|: infinite for an infinite ratio, undefined for NaN. */
  function Deviation(vw: Ratio): Ratio
  {
    match vw
    case Finite(v) => Finite(Abs(v - 1.0))
    case Infinite => Infinite
    case NotANumber => NotANumber
  }

  /** The order idxmin uses: finite values by size, below infinity. */
  predicate AtMost(a: Ratio, b: Ratio)
  {
    (a.Finite? && b.Finite? && a.value <= b.value) || (a.Finite? && b.Infinite?) || (a.Infinite? && b.Infinite?)
  }

  /** One row of the volume table: the width, the window's first and last
      day, and the two flow totals (in cfs-days) from which the table's
      other columns are derived by `Avg`, `Vol`, `VolPeak` and `Vw`. */
  datatype WindowRow = WindowRow(w: nat, start: nat, end: nat, total: real, peakTotal: real)

  /** The `avg` column: the window's mean flow. */
  function Avg(row: WindowRow): (avg: real)
    requires row.w >= 1
    ensures avg * (row.w as real) == row.total
  {
    MeanTimesCount(row.total, row.w);
    row.total / row.w as real
  }

  /** The `vol` column: the window's volume in acre-feet, rounded to whole
      acre-feet. */
  function Vol(row: WindowRow): real
  {
    Round(AcreFeet(row.total), 0)
  }

  /** The `vol_peak` column: the volume from the window's start through the
      storage peak, rounded to whole acre-feet. */
  function VolPeak(row: WindowRow): real
  {
    Round(AcreFeet(row.peakTotal), 0)
  }

  /** The `vw` column. */
  function Vw(row: WindowRow): Ratio
  {
    VolumeRatio(VolPeak(row), Vol(row))
  }

  /** The w-day window ending at `end` lies inside the event [s, e] and has
      no missing day. */
  predicate InEventFull(q: seq<Option<real>>, s: nat, e: nat, end: int, w: nat)
  {
    1 <= w && s + w - 1 <= end <= e < |q| && AllPresent(q[end - w + 1 .. end + 1])
  }

  /** The w-day window of the event slice ending at `rel` is the w-day
      window of the whole series ending at `s + rel`. */
  lemma SliceWindow(q: seq<Option<real>>, s: nat, e: nat, rel: int, w: nat)
    requires s <= e < |q| && 1 <= w && w - 1 <= rel < e + 1 - s
    ensures q[s .. e + 1][rel - w + 1 .. rel + 1] == q[s + rel - w + 1 .. s + rel + 1]
  {
    var a := q[s .. e + 1][rel - w + 1 .. rel + 1];
    var b := q[s + rel - w + 1 .. s + rel + 1];
    assert |a| == |b|;
    forall i | 0 <= i < |a| ensures a[i] == b[i] {
      assert a[i] == q[s + rel - w + 1 + i];
    }
  }

  /** Pandas' rolling `w`-day sum of the event's inflow in acre-feet and its
      `idxmax`: the last day of the first full window with the largest
      volume; None when no w-day window of the event is full. */
  function BestEnd(q: seq<Option<real>>, s: nat, e: nat, w: nat): (b: Option<nat>)
    requires s <= e < |q|
    ensures b.Some? ==> 1 <= w && s + w - 1 <= b.value <= e
  {
    var slice := q[s .. e + 1];
    var best := BestEndIn(slice, w, 86400.0 / 43560.0, 0, |slice|);
    if best.None? then None else Some(s + best.value)
  }

  /** The day found ends a full window of the event; none is found exactly
      when the event has no full window. */
  lemma BestEndFull(q: seq<Option<real>>, s: nat, e: nat, w: nat)
    requires s <= e < |q|
    ensures var b := BestEnd(q, s, e, w);
      && (b.Some? ==> InEventFull(q, s, e, b.value, w))
      && (b.None? <==> forall end :: s <= end <= e ==> !InEventFull(q, s, e, end, w))
  {
    var slice := q[s .. e + 1];
    var best := BestEndIn(slice, w, 86400.0 / 43560.0, 0, |slice|);
    BestEndInSpec(slice, w, 86400.0 / 43560.0, 0, |slice|);
    if best.None? {
      forall end | s <= end <= e ensures !InEventFull(q, s, e, end, w) {
        if InEventFull(q, s, e, end, w) {
          SliceWindow(q, s, e, end - s, w);
          assert Full(slice, end - s, w);
        }
      }
    } else {
      var k := best.value;
      assert Full(slice, k, w);
      SliceWindow(q, s, e, k, w);
      assert InEventFull(q, s, e, s + k, w);
    }
  }

  /** The window found has at least the flow of every full window of the
      event and more than that of every earlier one. */
  lemma BestEndMaximal(q: seq<Option<real>>, s: nat, e: nat, w: nat)
    requires s <= e < |q| && BestEnd(q, s, e, w).Some?
    ensures var b := BestEnd(q, s, e, w).value;
      && (forall end :: s <= end <= e && InEventFull(q, s, e, end, w) ==>
            SumPresent(q[end - w + 1 .. end + 1]) <= SumPresent(q[b - w + 1 .. b + 1]))
      && (forall end :: s <= end < b && InEventFull(q, s, e, end, w) ==>
            SumPresent(q[end - w + 1 .. end + 1]) < SumPresent(q[b - w + 1 .. b + 1]))
  {
    var b := BestEnd(q, s, e, w).value;
    forall end | s <= end <= e && InEventFull(q, s, e, end, w)
      ensures SumPresent(q[end - w + 1 .. end + 1]) <= SumPresent(q[b - w + 1 .. b + 1])
      ensures end < b ==> SumPresent(q[end - w + 1 .. end + 1]) < SumPresent(q[b - w + 1 .. b + 1])
    {
      EventWindowAtMost(q, s, e, w, end);
    }
  }

  /** One full window of the event against the window found. */
  lemma EventWindowAtMost(q: seq<Option<real>>, s: nat, e: nat, w: nat, end: nat)
    requires s <= e < |q| && BestEnd(q, s, e, w).Some?
    requires s <= end <= e && InEventFull(q, s, e, end, w)
    ensures var b := BestEnd(q, s, e, w).value;
      && SumPresent(q[end - w + 1 .. end + 1]) <= SumPresent(q[b - w + 1 .. b + 1])
      && (end < b ==> SumPresent(q[end - w + 1 .. end + 1]) < SumPresent(q[b - w + 1 .. b + 1]))
  {
    var slice := q[s .. e + 1];
    var best := BestEndIn(slice, w, 86400.0 / 43560.0, 0, |slice|).value;
    assert BestEnd(q, s, e, w).value == s + best;
    SliceWindow(q, s, e, best, w);
    SliceWindow(q, s, e, end - s, w);
    WindowAtMost(slice, w, best, end - s);
  }

  /** One full window of the event slice against the window found. */
  lemma WindowAtMost(slice: seq<Option<real>>, w: nat, best: nat, rel: nat)
    requires BestEndIn(slice, w, 86400.0 / 43560.0, 0, |slice|) == Some(best)
    requires 1 <= w && w - 1 <= rel < |slice| && AllPresent(slice[rel - w + 1 .. rel + 1])
    ensures SumPresent(slice[rel - w + 1 .. rel + 1]) <= SumPresent(slice[best - w + 1 .. best + 1])
    ensures rel < best ==> SumPresent(slice[rel - w + 1 .. rel + 1]) < SumPresent(slice[best - w + 1 .. best + 1])
  {
    BestEndInSpec(slice, w, 86400.0 / 43560.0, 0, |slice|);
    assert Full(slice, rel, w);
  }

  /** The row of width `w`, built at the window `BestEnd` finds; None when
      the width is skipped. `vp` is the day of peak storage. */
  function WidthRow(q: seq<Option<real>>, s: nat, e: nat, vp: nat, w: nat): (r: Option<WindowRow>)
    requires s <= e < |q| && vp <= e
    ensures r.Some? ==> r.value.w == w
  {
    var best := BestEnd(q, s, e, w);
    if best.None? then None
    else
      var end := best.value;
      var start := end - (w - 1);
      var stop := if vp + 1 < start then start else vp + 1;
      Some(WindowRow(w, start, end, SumPresent(q[start .. end + 1]), SumPresent(q[start .. stop])))
  }

  /** A width is skipped exactly when none of its windows inside the event
      is full. */
  lemma WidthRowSkipped(q: seq<Option<real>>, s: nat, e: nat, vp: nat, w: nat)
    requires s <= e < |q| && vp <= e
    ensures WidthRow(q, s, e, vp, w).None? <==> forall end :: s <= end <= e ==> !InEventFull(q, s, e, end, w)
  {
    BestEndFull(q, s, e, w);
  }

  /** The row of a width is the first maximal full window of the event,
      ending at `end` and starting `w - 1` days earlier. */
  lemma WidthRowWindow(q: seq<Option<real>>, s: nat, e: nat, vp: nat, w: nat)
    requires s <= e < |q| && vp <= e
    requires WidthRow(q, s, e, vp, w).Some?
    ensures var row := WidthRow(q, s, e, vp, w).value;
      && row.start == row.end - (w - 1) && s <= row.start
      && InEventFull(q, s, e, row.end, w)
      && (forall end :: s <= end <= e && InEventFull(q, s, e, end, w) ==>
            SumPresent(q[end - w + 1 .. end + 1]) <= SumPresent(q[row.start .. row.end + 1]))
      && (forall end :: s <= end < row.end && InEventFull(q, s, e, end, w) ==>
            SumPresent(q[end - w + 1 .. end + 1]) < SumPresent(q[row.start .. row.end + 1]))
  {
    var b := BestEnd(q, s, e, w);
    var row := WidthRow(q, s, e, vp, w).value;
    assert b.Some? && row.end == b.value && row.start == b.value - (w - 1);
    BestEndFull(q, s, e, w);
    BestEndMaximal(q, s, e, w);
  }

  /** Its total is the flow of that window and its peak total the flow from the window's start through the
      storage peak, which is zero when the peak comes first. */
  lemma WidthRowVolumes(q: seq<Option<real>>, s: nat, e: nat, vp: nat, w: nat)
    requires s <= e < |q| && vp <= e
    requires WidthRow(q, s, e, vp, w).Some?
    ensures var row := WidthRow(q, s, e, vp, w).value;
      && row.start <= row.end < |q|
      && row.total == SumPresent(q[row.start .. row.end + 1])
      && (vp < row.start ==> row.peakTotal == 0.0)
      && (row.start <= vp ==> row.peakTotal == SumPresent(q[row.start .. vp + 1]))
  {
    var row := WidthRow(q, s, e, vp, w).value;
    if vp < row.start {
      assert q[row.start .. row.start] == [];
    }
  }

  /** Adds or replaces the row of a width, as assigning `volumes.loc[w, ...]`
      does. */
  function Upsert(table: seq<WindowRow>, row: WindowRow): seq<WindowRow>
  {
    if table == [] then [row]
    else if table[0].w == row.w then [row] + table[1..]
    else [table[0]] + Upsert(table[1..], row)
  }

  /** The rows of the widths 1..n, position w - 1 holding width w. */
  function RowsOf(q: seq<Option<real>>, s: nat, e: nat, vp: nat, n: nat): (rows: seq<Option<WindowRow>>)
    requires s <= e < |q| && vp <= e
    ensures |rows| == n
  {
    if n == 0 then [] else RowsOf(q, s, e, vp, n - 1) + [WidthRow(q, s, e, vp, n)]
  }

  /** Position k holds the row of width k + 1. */
  lemma {:induction false} RowsOfAt(q: seq<Option<real>>, s: nat, e: nat, vp: nat, n: nat, k: nat)
    requires s <= e < |q| && vp <= e && k < n
    ensures RowsOf(q, s, e, vp, n)[k] == WidthRow(q, s, e, vp, k + 1)
  {
    if k < n - 1 {
      RowsOfAt(q, s, e, vp, n - 1, k);
    }
  }

  lemma RowsOfWidths(q: seq<Option<real>>, s: nat, e: nat, vp: nat, n: nat)
    requires s <= e < |q| && vp <= e
    ensures var rows := RowsOf(q, s, e, vp, n);
      forall k :: 0 <= k < |rows| && rows[k].Some? ==> rows[k].value.w == k + 1
  {
    forall k | 0 <= k < n {
      RowsOfAt(q, s, e, vp, n, k);
    }
  }

  /** The rows that exist, in order (the widths without a full window are
      skipped). */
  function Somes(rows: seq<Option<WindowRow>>): (t: seq<WindowRow>)
    ensures |t| <= |rows|
  {
    if rows == [] then []
    else Somes(rows[..|rows| - 1]) + (if rows[|rows| - 1].Some? then [rows[|rows| - 1].value] else [])
  }

  /** When position k holds width k + 1, the rows among the first n are
      narrower than n + 1. */
  lemma {:induction false} SomesNarrower(rows: seq<Option<WindowRow>>, n: nat)
    requires n <= |rows|
    requires forall k :: 0 <= k < |rows| && rows[k].Some? ==> rows[k].value.w == k + 1
    ensures forall i :: 0 <= i < |Somes(rows[..n])| ==> Somes(rows[..n])[i].w <= n
  {
    if n > 0 {
      SomesNarrower(rows, n - 1);
      assert rows[..n][..n - 1] == rows[..n - 1];
    }
  }

  /** A row wider than every row of the table is appended. */
  lemma {:induction false} UpsertAppends(table: seq<WindowRow>, row: WindowRow)
    requires forall i :: 0 <= i < |table| ==> table[i].w < row.w
    ensures Upsert(table, row) == table + [row]
  {
    if table != [] {
      UpsertAppends(table[1..], row);
    }
  }

  /** Processing width n + 1 after widths 1..n. */
  lemma NextWidth(rows: seq<Option<WindowRow>>, n: nat)
    requires n < |rows|
    requires forall k :: 0 <= k < |rows| && rows[k].Some? ==> rows[k].value.w == k + 1
    ensures Somes(rows[..n + 1]) ==
      if rows[n].Some? then Upsert(Somes(rows[..n]), rows[n].value) else Somes(rows[..n])
  {
    assert rows[..n + 1][..n] == rows[..n];
    if rows[n].Some? {
      SomesNarrower(rows, n);
      UpsertAppends(Somes(rows[..n]), rows[n].value);
    }
  }

  /** Processing width 1 a second time leaves the table as it is. */
  lemma RepeatWidthOne(rows: seq<Option<WindowRow>>)
    requires 1 <= |rows|
    ensures (if rows[0].Some? then Upsert(Somes(rows[..1]), rows[0].value) else Somes(rows[..1])) == Somes(rows[..1])
  {
    assert rows[..1][..0] == [];
  }

  /** One pass of the loop over the candidate widths, after the rows of the
      first `done` widths: the row at position `k` is either the next one,
      or width 1 again (a one-day event), which changes nothing. */
  lemma TableStep(rows: seq<Option<WindowRow>>, done: nat, k: nat, table: seq<WindowRow>, row: Option<WindowRow>)
    requires k < |rows| && (k == done || (k == 0 && done == 1))
    requires forall j :: 0 <= j < |rows| && rows[j].Some? ==> rows[j].value.w == j + 1
    requires table == Somes(rows[..done]) && row == rows[k]
    ensures (if row.Some? then Upsert(table, row.value) else table) ==
      Somes(rows[..if k == done then done + 1 else done])
  {
    if k == done {
      NextWidth(rows, k);
    } else {
      RepeatWidthOne(rows);
    }
  }

  /** First position whose deviation is defined and smallest (pandas
      `idxmin`, which skips NaN); None when every deviation is NaN. */
  function FirstArgMin(devs: seq<Ratio>, j: nat): (b: Option<nat>)
    decreases |devs| - j
    ensures b.Some? ==> j <= b.value < |devs| && !devs[b.value].NotANumber?
    ensures b.Some? ==> forall i :: j <= i < |devs| && !devs[i].NotANumber? ==> AtMost(devs[b.value], devs[i])
    ensures b.Some? ==> forall i :: j <= i < b.value && !devs[i].NotANumber? ==> !AtMost(devs[i], devs[b.value])
    ensures b.None? <==> forall i :: j <= i < |devs| ==> devs[i].NotANumber?
  {
    if j >= |devs| then None
    else
      var rest := FirstArgMin(devs, j + 1);
      if !devs[j].NotANumber? && (rest.None? || AtMost(devs[j], devs[rest.value]))
      then Some(j)
      else rest
  }

  function Deviations(table: seq<WindowRow>): (d: seq<Ratio>)
    ensures |d| == |table| && forall i :: 0 <= i < |table| ==> d[i] == Deviation(Vw(table[i]))
  {
    if table == [] then [] else [Deviation(Vw(table[0]))] + Deviations(table[1..])
  }

  /** `abs(vw - 1).idxmin()`: the width of the first row whose deviation is
      defined and no larger than any other defined deviation; None when every
      deviation is NaN. */
  function CritWidth(table: seq<WindowRow>): (c: Option<nat>)
    ensures c.None? <==> forall i :: 0 <= i < |table| ==> Deviation(Vw(table[i])).NotANumber?
    ensures c.Some? ==> exists i :: 0 <= i < |table| && table[i].w == c.value && CritAt(table, i)
  {
    var k := FirstArgMin(Deviations(table), 0);
    if k.None? then None
    else
      assert CritAt(table, k.value);
      Some(table[k.value].w)
  }

  /** Row i has the smallest defined deviation, strictly smaller than that of
      every earlier row. */
  predicate CritAt(table: seq<WindowRow>, i: nat)
  {
    && i < |table|
    && !Deviation(Vw(table[i])).NotANumber?
    && (forall j :: 0 <= j < |table| && !Deviation(Vw(table[j])).NotANumber? ==>
          AtMost(Deviation(Vw(table[i])), Deviation(Vw(table[j]))))
    && (forall j :: 0 <= j < i && !Deviation(Vw(table[j])).NotANumber? ==>
          !AtMost(Deviation(Vw(table[j])), Deviation(Vw(table[i]))))
  }

  /** Why the analysis of an event fails where the source raises. */
  datatype VolWindowError =
    | NoStorage  // every storage value of the event is missing
    | NoWindows  // no candidate width has a full window

  datatype VolWindowResult = VolWindowResult(table: seq<WindowRow>, crit: Option<nat>)

  /** The loop over the candidate widths, filling the volume table row by
      row: the table ends up holding the row of every width from 1 to the
      duration that has a full window, in order of width. */
  method VolumeTable(q: seq<Option<real>>, s: nat, e: nat, vp: nat, duration: int) returns (table: seq<WindowRow>)
    requires s <= e < |q| && vp <= e && duration >= 1
    ensures table == Somes(RowsOf(q, s, e, vp, duration))
  {
    var ws := CandidateWidths(duration);
    ghost var rows := RowsOf(q, s, e, vp, duration);
    RowsOfWidths(q, s, e, vp, duration);
    table := [];
    ghost var done := 0;
    for i := 0 to |ws|
      invariant done == (if duration == 1 && i > 1 then 1 else i)
      invariant table == Somes(rows[..done])
    {
      var row := WidthRow(q, s, e, vp, ws[i]);
      ghost var k := if duration == 1 && i == 1 then 0 else i;
      assert ws[i] == k + 1;
      RowsOfAt(q, s, e, vp, duration, k);
      TableStep(rows, done, k, table, row);
      if row.Some? {
        table := Upsert(table, row.value);
      }
      done := if k == done then done + 1 else done;
    }
    assert rows[..duration] == rows;
  }

  /** The analysis of the event [s, e] with the given duration: `q` is the
      inflow, `af` the routed storage on the same days. The storage peaks on
      the first day of largest storage in the event; the critical duration is
      the width the deviations |vw - 1| of the volume table pick. */
  method AnalyzeVolWindow(q: seq<Option<real>>, af: seq<Option<real>>, s: nat, e: nat, duration: int)
    returns (r: Result<VolWindowResult, VolWindowError>)
    requires s <= e < |q| && e < |af| && duration >= 1
    ensures r == Err(NoStorage) <==> FirstArgMaxPresent(af[s .. e + 1], 0).None?
    ensures r.Ok? ==>
      && |r.value.table| > 0
      && r.value.table == Somes(RowsOf(q, s, e, s + FirstArgMaxPresent(af[s .. e + 1], 0).value, duration))
      && r.value.crit == CritWidth(r.value.table)
    ensures r == Err(NoWindows) ==>
      Somes(RowsOf(q, s, e, s + FirstArgMaxPresent(af[s .. e + 1], 0).value, duration)) == []
  {
    var peak := FirstArgMaxPresent(af[s .. e + 1], 0);
    if peak.None? {
      return Err(NoStorage);
    }
    var vp := s + peak.value;
    var table := VolumeTable(q, s, e, vp, duration);
    if table == [] {
      return Err(NoWindows);
    }
    var crit := CritWidth(table);
    r := Ok(VolWindowResult(table, crit));
  }
}
