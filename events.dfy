/** Threshold-event detection (the partial duration series): one pass over a
    daily series with a two-state scan that opens an event on the first day
    above the threshold and closes it on the first later day at or below it. */
module Events {
  import opened Common

  /** One day of the series: its value (None when missing) and calendar month. */
  datatype Day = Day(value: Option<real>, month: int)

  /** The columns of an event row that are filled when the event closes. */
  datatype Closing = Closing(end: nat, duration: nat, peak: real)

  /** A row of the event table. An event still open when the series ends keeps
      only its start and month: `close` is None. */
  datatype EventRow = EventRow(start: nat, month: int, close: Option<Closing>)

  /** A missing day is neither above nor at-or-below the threshold: every
      comparison with NaN is false. */
  predicate Above(d: Day, thresh: real) { d.value.Some? && d.value.value > thresh }
  predicate AtOrBelow(d: Day, thresh: real) { d.value.Some? && d.value.value <= thresh }

  function Values(data: seq<Day>): (r: seq<Option<real>>)
    ensures |r| == |data| && forall i :: 0 <= i < |data| ==> r[i] == data[i].value
  {
    seq(|data|, i requires 0 <= i < |data| => data[i].value)
  }

  /** Python's built-in `max` over data[lo..hi). The first day is present, so a
      missing day never wins a comparison and is passed over. */
  function PeakOver(data: seq<Day>, lo: nat, hi: nat): real
    requires lo < hi <= |data| && data[lo].value.Some?
  {
    var s := Values(data[lo..hi]);
    assert s[0].Some?;
    MaxOf(Present(s))
  }

  /** The scan's variables between days: the `ev` flag, the running `dur`
      and the table built so far (the counter `ex` is |rows| - 1). */
  datatype ScanState = ScanState(inEvent: bool, dur: nat, rows: seq<EventRow>)

  /** While an event is open it is the last row, has no closing yet, started on
      a day above the threshold, and started `dur` days before day `n`. */
  predicate OpenShape(data: seq<Day>, thresh: real, n: nat, st: ScanState)
  {
    st.inEvent ==>
      && |st.rows| > 0
      && st.rows[|st.rows| - 1].close.None?
      && st.dur >= 1
      && st.rows[|st.rows| - 1].start + st.dur == n
      && st.rows[|st.rows| - 1].start < |data|
      && Above(data[st.rows[|st.rows| - 1].start], thresh)
  }

  /** Opening: a day above the threshold outside an event starts a new row. */
  function OpenStage(data: seq<Day>, thresh: real, l: nat, st: ScanState): ScanState
    requires l < |data|
  {
    if Above(data[l], thresh) && !st.inEvent
    then ScanState(true, 0, st.rows + [EventRow(l, data[l].month, None)])
    else st
  }

  /** Closing: a day at or below the threshold inside an event completes the
      open row with the previous day as its end, the running duration, and the
      peak over the days from the start through this closing day. */
  function CloseStage(data: seq<Day>, thresh: real, l: nat, st: ScanState): ScanState
    requires l < |data|
    requires AtOrBelow(data[l], thresh) && st.inEvent ==> OpenShape(data, thresh, l, st)
  {
    if AtOrBelow(data[l], thresh) && st.inEvent
    then
      var last := |st.rows| - 1;
      var c := Closing(l - 1, st.dur, PeakOver(data, l - st.dur, l + 1));
      ScanState(false, st.dur, st.rows[last := st.rows[last].(close := Some(c))])
    else st
  }

  /** One day of the scan: open, then close, then count the day if in an event. */
  function Step(data: seq<Day>, thresh: real, l: nat, st: ScanState): (r: ScanState)
    requires l < |data| && OpenShape(data, thresh, l, st)
    ensures OpenShape(data, thresh, l + 1, r)
  {
    var afterOpen := OpenStage(data, thresh, l, st);
    assert AtOrBelow(data[l], thresh) && afterOpen.inEvent ==> afterOpen == st;
    var closed := CloseStage(data, thresh, l, afterOpen);
    if closed.inEvent then closed.(dur := closed.dur + 1) else closed
  }

  /** The scan's state after the first `n` days. */
  function ScanUpTo(data: seq<Day>, thresh: real, n: nat): (st: ScanState)
    requires n <= |data|
    ensures OpenShape(data, thresh, n, st)
  {
    if n == 0 then ScanState(false, 0, [])
    else Step(data, thresh, n - 1, ScanUpTo(data, thresh, n - 1))
  }

  /** The event table of the whole series. */
  function ThreshEvents(data: seq<Day>, thresh: real): seq<EventRow>
  {
    ScanUpTo(data, thresh, |data|).rows
  }

  /** The scan as the source writes it: flags and counters updated day by day,
      rows appended on opening and completed in place on closing. */
  method IdentifyThreshEvents(data: seq<Day>, thresh: real) returns (evs: seq<EventRow>)
    ensures evs == ThreshEvents(data, thresh)
  {
    var ev := false;
    var ex := -1;
    var dur: nat := 0;
    evs := [];
    for l := 0 to |data|
      invariant ScanState(ev, dur, evs) == ScanUpTo(data, thresh, l)
      invariant ex == |evs| - 1
    {
      ghost var st := ScanState(ev, dur, evs);
      var v := data[l].value;
      if v.Some? && v.value > thresh && !ev {
        ev := true;
        ex := ex + 1;
        dur := 0;
        evs := evs + [EventRow(l, data[l].month, None)];
      }
      ghost var afterOpen := ScanState(ev, dur, evs);
      assert afterOpen == OpenStage(data, thresh, l, st);
      assert AtOrBelow(data[l], thresh) && ev ==> afterOpen == st;
      if v.Some? && v.value <= thresh && ev {
        ev := false;
        evs := evs[ex := evs[ex].(close := Some(Closing(l - 1, dur, PeakOver(data, l - dur, l + 1))))];
      }
      assert ScanState(ev, dur, evs) == CloseStage(data, thresh, l, afterOpen);
      if ev {
        dur := dur + 1;
      }
    }
  }

  // ---------------------------------------------------------------------
  // What the table means: the invariant the scan keeps.

  /** No day in [lo, hi) is above the threshold. */
  predicate NoneAbove(data: seq<Day>, thresh: real, lo: nat, hi: nat)
    requires hi <= |data|
  {
    forall i :: lo <= i < hi ==> !Above(data[i], thresh)
  }

  /** No day in [lo, hi) is at or below the threshold. */
  predicate NoneAtOrBelow(data: seq<Day>, thresh: real, lo: nat, hi: nat)
    requires hi <= |data|
  {
    forall i :: lo <= i < hi ==> !AtOrBelow(data[i], thresh)
  }

  /** A row of the table as seen after the first `n` days: it starts on a day
      above the threshold and carries that day's month; a closed row ends the
      day before a day at or below the threshold, has duration
      end - start + 1 >= 1, holds no such day in between, and its peak is the
      maximum from its start through the closing day; an open row has seen no
      day at or below the threshold since its start. */
  predicate RowShape(data: seq<Day>, thresh: real, n: nat, r: EventRow)
    requires n <= |data|
  {
    && r.start < n
    && Above(data[r.start], thresh)
    && r.month == data[r.start].month
    && match r.close
       case None => NoneAtOrBelow(data, thresh, r.start, n)
       case Some(c) =>
         && c.duration >= 1
         && c.end == r.start + c.duration - 1
         && c.end + 1 < n
         && AtOrBelow(data[c.end + 1], thresh)
         && NoneAtOrBelow(data, thresh, r.start, c.end + 1)
         && c.peak == PeakOver(data, r.start, c.end + 2)
  }

  /** Where the scan is free to open row `k`: day 0 for the first row, the day
      after the previous row's closing day otherwise. */
  function GapStart(rows: seq<EventRow>, k: nat): nat
    requires k <= |rows|
  {
    if k == 0 then 0
    else match rows[k - 1].close
      case Some(c) => c.end + 2
      case None => rows[k - 1].start
  }

  /** Every row has its shape after `n` days. */
  predicate RowsShaped(data: seq<Day>, thresh: real, n: nat, rows: seq<EventRow>)
    requires n <= |data|
  {
    forall k :: 0 <= k < |rows| ==> RowShape(data, thresh, n, rows[k])
  }

  /** Every row but the last is closed. */
  predicate OnlyLastOpen(rows: seq<EventRow>)
  {
    forall k :: 0 <= k < |rows| - 1 ==> rows[k].close.Some?
  }

  /** No day above the threshold lies before a row's start and after the
      previous row's closing day. */
  predicate GapsClear(data: seq<Day>, thresh: real, rows: seq<EventRow>)
    requires forall k :: 0 <= k < |rows| ==> rows[k].start < |data|
  {
    forall k {:trigger GapStart(rows, k)} :: 0 <= k < |rows| ==>
      GapStart(rows, k) <= rows[k].start && NoneAbove(data, thresh, GapStart(rows, k), rows[k].start)
  }

  /** The scan's invariant after `n` days: every row has its shape, only the
      last row may be open (and is exactly when the flag is set), no day above
      the threshold is skipped between rows or after the last closed row, and
      the running duration counts the open event's days. */
  predicate Valid(data: seq<Day>, thresh: real, n: nat, st: ScanState)
    requires n <= |data|
  {
    && RowsShaped(data, thresh, n, st.rows)
    && OnlyLastOpen(st.rows)
    && (st.inEvent <==> |st.rows| > 0 && st.rows[|st.rows| - 1].close.None?)
    && GapsClear(data, thresh, st.rows)
    && (!st.inEvent ==>
          GapStart(st.rows, |st.rows|) <= n
          && NoneAbove(data, thresh, GapStart(st.rows, |st.rows|), n))
    && (st.inEvent ==> st.rows[|st.rows| - 1].start + st.dur == n)
  }

  /** A row's shape after `n` days still holds after `n + 1` days, except
      that an open row must also not meet a day at or below the threshold. */
  lemma RowShapeGrows(data: seq<Day>, thresh: real, n: nat, r: EventRow)
    requires n < |data| && RowShape(data, thresh, n, r)
    requires r.close.None? ==> !AtOrBelow(data[n], thresh)
    ensures RowShape(data, thresh, n + 1, r)
  {
  }
  /** Opening a row on a day above the threshold outside an event keeps
      the invariant. */
  lemma StepOpens(data: seq<Day>, thresh: real, l: nat, st: ScanState)
    requires l < |data| && Valid(data, thresh, l, st) && OpenShape(data, thresh, l, st)
    requires Above(data[l], thresh) && !st.inEvent
    ensures Valid(data, thresh, l + 1, Step(data, thresh, l, st))
  {
    var rows := st.rows + [EventRow(l, data[l].month, None)];
    assert Step(data, thresh, l, st) == ScanState(true, 1, rows);
    OpenedValid(data, thresh, l, st);
  }

  lemma OpenedValid(data: seq<Day>, thresh: real, l: nat, st: ScanState)
    requires l < |data| && Valid(data, thresh, l, st)
    requires Above(data[l], thresh) && !st.inEvent
    ensures Valid(data, thresh, l + 1, ScanState(true, 1, st.rows + [EventRow(l, data[l].month, None)]))
  {
    var rows := st.rows + [EventRow(l, data[l].month, None)];
    forall k | 0 <= k < |rows|
      ensures RowShape(data, thresh, l + 1, rows[k])
    {
      if k < |st.rows| {
        assert rows[k] == st.rows[k];
        RowShapeGrows(data, thresh, l, st.rows[k]);
      }
    }
    OpenedGaps(data, thresh, l, st.rows);
  }

  /** Appending a row keeps every earlier gap, and the new row's gap is the
      stretch the scan left clear. */
  lemma OpenedGaps(data: seq<Day>, thresh: real, l: nat, rows0: seq<EventRow>)
    requires l < |data|
    requires forall k :: 0 <= k < |rows0| ==> rows0[k].start < |data|
    requires GapsClear(data, thresh, rows0)
    requires GapStart(rows0, |rows0|) <= l && NoneAbove(data, thresh, GapStart(rows0, |rows0|), l)
    ensures GapsClear(data, thresh, rows0 + [EventRow(l, data[l].month, None)])
  {
    var rows := rows0 + [EventRow(l, data[l].month, None)];
    forall k | 0 <= k < |rows|
      ensures GapStart(rows, k) == GapStart(rows0, k)
    {
    }
  }

  /** The open row, closed on day `l` after `dur` days, has a closed row's shape. */
  lemma ClosedRowShape(data: seq<Day>, thresh: real, l: nat, dur: nat, open: EventRow)
    requires l < |data| && RowShape(data, thresh, l, open) && open.close.None?
    requires dur >= 1 && open.start + dur == l && AtOrBelow(data[l], thresh)
    ensures RowShape(data, thresh, l + 1,
      open.(close := Some(Closing(l - 1, dur, PeakOver(data, l - dur, l + 1)))))
  {
  }

  /** Closing the last row moves no row's start and no gap. */
  lemma GapsAfterClose(data: seq<Day>, thresh: real, rows: seq<EventRow>, c: Closing)
    requires |rows| > 0
    requires forall k :: 0 <= k < |rows| ==> rows[k].start < |data|
    requires GapsClear(data, thresh, rows)
    ensures GapsClear(data, thresh, rows[|rows| - 1 := rows[|rows| - 1].(close := Some(c))])
  {
    var last := |rows| - 1;
    var rows' := rows[last := rows[last].(close := Some(c))];
    forall k | 0 <= k < |rows'|
      ensures GapStart(rows', k) == GapStart(rows, k) && rows'[k].start == rows[k].start
    {
    }
  }

  lemma StepCloses(data: seq<Day>, thresh: real, l: nat, st: ScanState)
    requires l < |data| && Valid(data, thresh, l, st) && OpenShape(data, thresh, l, st)
    requires AtOrBelow(data[l], thresh) && st.inEvent
    ensures Valid(data, thresh, l + 1, Step(data, thresh, l, st))
  {
    var last := |st.rows| - 1;
    var open := st.rows[last];
    var c := Closing(l - 1, st.dur, PeakOver(data, l - st.dur, l + 1));
    var rows := st.rows[last := open.(close := Some(c))];
    assert Step(data, thresh, l, st) == ScanState(false, st.dur, rows);
    assert RowShape(data, thresh, l, open);
    ClosedRowShape(data, thresh, l, st.dur, open);
    forall k | 0 <= k < |rows|
      ensures RowShape(data, thresh, l + 1, rows[k])
    {
      if k < last {
        assert rows[k] == st.rows[k];
        RowShapeGrows(data, thresh, l, st.rows[k]);
      }
    }
    assert RowsShaped(data, thresh, l + 1, rows);
    GapsAfterClose(data, thresh, st.rows, c);
    assert OnlyLastOpen(rows);
    assert GapStart(rows, |rows|) == l + 1;
  }

  lemma StepContinues(data: seq<Day>, thresh: real, l: nat, st: ScanState)
    requires l < |data| && Valid(data, thresh, l, st) && OpenShape(data, thresh, l, st)
    requires !(Above(data[l], thresh) && !st.inEvent)
    requires !(AtOrBelow(data[l], thresh) && st.inEvent)
    ensures Valid(data, thresh, l + 1, Step(data, thresh, l, st))
  {
    var r := Step(data, thresh, l, st);
    assert r.rows == st.rows;
    forall k | 0 <= k < |st.rows|
      ensures RowShape(data, thresh, l + 1, st.rows[k])
    {
      RowShapeGrows(data, thresh, l, st.rows[k]);
    }
  }

  /** The scan keeps its invariant day after day. */
  lemma {:induction false} ScanValid(data: seq<Day>, thresh: real, n: nat)
    requires n <= |data|
    ensures Valid(data, thresh, n, ScanUpTo(data, thresh, n))
  {
    if n > 0 {
      var l := n - 1;
      var st := ScanUpTo(data, thresh, l);
      ScanValid(data, thresh, l);
      if Above(data[l], thresh) && !st.inEvent {
        StepOpens(data, thresh, l, st);
      } else if AtOrBelow(data[l], thresh) && st.inEvent {
        StepCloses(data, thresh, l, st);
      } else {
        StepContinues(data, thresh, l, st);
      }
    }
  }

  // ---------------------------------------------------------------------
  // Properties of the finished table.

  /** Every row starts on a day above the threshold (so never on a missing
      day) and carries its month; only the last row may be open, and it is
      open exactly when no day at or below the threshold followed its start.
      A closed row ends the day before a present day at or below the
      threshold, has duration = end - start + 1 >= 1, and no day in between
      is at or below the threshold. */
  lemma ThreshEventsShape(data: seq<Day>, thresh: real)
    ensures forall k :: 0 <= k < |ThreshEvents(data, thresh)| ==>
      var r := ThreshEvents(data, thresh)[k];
      && r.start < |data| && Above(data[r.start], thresh) && r.month == data[r.start].month
      && (k < |ThreshEvents(data, thresh)| - 1 ==> r.close.Some?)
      && (r.close.None? <==> forall i :: r.start <= i < |data| ==> !AtOrBelow(data[i], thresh))
      && (r.close.Some? ==>
            var c := r.close.value;
            && c.duration >= 1
            && c.end == r.start + c.duration - 1
            && c.end + 1 < |data|
            && AtOrBelow(data[c.end + 1], thresh)
            && forall i :: r.start <= i <= c.end ==> !AtOrBelow(data[i], thresh))
  {
    ScanValid(data, thresh, |data|);
    var rows := ThreshEvents(data, thresh);
    forall k | 0 <= k < |rows|
      ensures rows[k].close.Some? ==> exists i :: rows[k].start <= i < |data| && AtOrBelow(data[i], thresh)
    {
      assert RowShape(data, thresh, |data|, rows[k]);
      if rows[k].close.Some? {
        var i := rows[k].close.value.end + 1;
        assert rows[k].start <= i < |data| && AtOrBelow(data[i], thresh);
      }
    }
  }

  /** The invariant read off the finished table, one row at a time. */
  lemma TableRow(data: seq<Day>, thresh: real, k: nat)
    requires k < |ThreshEvents(data, thresh)|
    ensures RowShape(data, thresh, |data|, ThreshEvents(data, thresh)[k])
  {
    ScanValid(data, thresh, |data|);
    assert RowsShaped(data, thresh, |data|, ThreshEvents(data, thresh));
  }

  /** The invariant read off the finished table: its gaps and tail. */
  lemma TableGaps(data: seq<Day>, thresh: real)
    ensures forall k :: 0 <= k < |ThreshEvents(data, thresh)| ==> ThreshEvents(data, thresh)[k].start < |data|
    ensures GapsClear(data, thresh, ThreshEvents(data, thresh))
    ensures OnlyLastOpen(ThreshEvents(data, thresh))
    ensures var rows := ThreshEvents(data, thresh);
      (rows == [] || rows[|rows| - 1].close.Some?) ==>
        GapStart(rows, |rows|) <= |data| && NoneAbove(data, thresh, GapStart(rows, |rows|), |data|)
  {
    ScanValid(data, thresh, |data|);
    var rows := ThreshEvents(data, thresh);
    assert RowsShaped(data, thresh, |data|, rows);
    forall k | 0 <= k < |rows| ensures rows[k].start < |data| {
      assert RowShape(data, thresh, |data|, rows[k]);
    }
  }

  /** The peak of a closed event is above the threshold, no smaller than
      any present value from its start through its closing day, and is one
      of those values. */
  lemma {:induction false} ClosedEventPeak(data: seq<Day>, thresh: real, k: nat)
    requires k < |ThreshEvents(data, thresh)| && ThreshEvents(data, thresh)[k].close.Some?
    ensures var r := ThreshEvents(data, thresh)[k];
      var c := r.close.value;
      && c.end + 1 < |data|
      && c.peak > thresh
      && (forall i :: r.start <= i <= c.end + 1 && data[i].value.Some? ==> data[i].value.value <= c.peak)
      && (exists i :: r.start <= i <= c.end + 1 && data[i].value == Some(c.peak))
  {
    var r := ThreshEvents(data, thresh)[k];
    TableRow(data, thresh, k);
    var c := r.close.value;
    PeakOverSpec(data, r.start, c.end + 2);
  }

  /** Python's `max` over a stretch that starts on a present day: it is at
      least that day's value, no smaller than any present value, and one of
      them. */
  lemma PeakOverSpec(data: seq<Day>, lo: nat, hi: nat)
    requires lo < hi <= |data| && data[lo].value.Some?
    ensures PeakOver(data, lo, hi) >= data[lo].value.value
    ensures forall i :: lo <= i < hi && data[i].value.Some? ==> data[i].value.value <= PeakOver(data, lo, hi)
    ensures exists i :: lo <= i < hi && data[i].value == Some(PeakOver(data, lo, hi))
  {
    var s := Values(data[lo..hi]);
    var m := PeakOver(data, lo, hi);
    assert m == MaxOf(Present(s));
    PresentMembers(s);
    forall i | lo <= i < hi && data[i].value.Some?
      ensures data[i].value.value <= m
    {
      assert s[i - lo] == data[i].value;
    }
    assert s[0] == data[lo].value;
    var j :| 0 <= j < |s| && s[j] == Some(m);
    assert data[lo + j].value == Some(m);
  }

  /** Rows follow each other in date order without touching: each closed row's
      closing day comes strictly before the next row's start. */
  lemma ThreshEventsConsecutive(data: seq<Day>, thresh: real, k: nat)
    requires k + 1 < |ThreshEvents(data, thresh)|
    ensures ThreshEvents(data, thresh)[k].close.Some?
    ensures ThreshEvents(data, thresh)[k].start <= ThreshEvents(data, thresh)[k].close.value.end
    ensures ThreshEvents(data, thresh)[k].close.value.end + 1 < ThreshEvents(data, thresh)[k + 1].start
  {
    var rows := ThreshEvents(data, thresh);
    TableRow(data, thresh, k);
    TableGaps(data, thresh);
    assert GapStart(rows, k + 1) <= rows[k + 1].start;
  }

  /** The events are disjoint and in date order: for any two rows, the earlier
      one closes before the later one starts. */
  lemma {:induction false} ThreshEventsOrdered(data: seq<Day>, thresh: real, k: nat, k': nat)
    requires k < k' < |ThreshEvents(data, thresh)|
    ensures ThreshEvents(data, thresh)[k].close.Some?
    ensures ThreshEvents(data, thresh)[k].close.value.end + 1 < ThreshEvents(data, thresh)[k'].start
    decreases k' - k
  {
    ThreshEventsConsecutive(data, thresh, k);
    if k + 1 < k' {
      ThreshEventsOrdered(data, thresh, k + 1, k');
      ThreshEventsConsecutive(data, thresh, k + 1);
    }
  }

  /** Helper for completeness: a day above the threshold at or after row
      `k`'s gap start lies in row `k` or a later one. */
  lemma {:induction false} CoveredFrom(data: seq<Day>, thresh: real, k: nat, i: nat)
    requires k <= |ThreshEvents(data, thresh)| && i < |data| && Above(data[i], thresh)
    requires GapStart(ThreshEvents(data, thresh), k) <= i
    requires k > 0 ==> ThreshEvents(data, thresh)[k - 1].close.Some?
    ensures exists j :: (k <= j < |ThreshEvents(data, thresh)| &&
      ThreshEvents(data, thresh)[j].start <= i &&
      (ThreshEvents(data, thresh)[j].close.Some? ==> i <= ThreshEvents(data, thresh)[j].close.value.end))
    decreases |data| - k
  {
    var rows := ThreshEvents(data, thresh);
    TableGaps(data, thresh);
    if k == |rows| {
      assert false;
    } else {
      assert GapStart(rows, k) <= rows[k].start && NoneAbove(data, thresh, GapStart(rows, k), rows[k].start);
      TableRow(data, thresh, k);
      if rows[k].close.Some? && rows[k].close.value.end < i {
        assert i != rows[k].close.value.end + 1;
        assert GapStart(rows, k + 1) <= i;
        assert k < |data| by {
          assert rows[k].start < rows[k].close.value.end + 2 <= |data|;
          StartsAtLeastIndex(data, thresh, k);
        }
        CoveredFrom(data, thresh, k + 1, i);
      } else {
        assert rows[k].start <= i;
      }
    }
  }

  /** Row `k` starts no earlier than day `k`: starts strictly increase. */
  lemma {:induction false} StartsAtLeastIndex(data: seq<Day>, thresh: real, k: nat)
    requires k < |ThreshEvents(data, thresh)|
    ensures k <= ThreshEvents(data, thresh)[k].start
  {
    if k > 0 {
      StartsAtLeastIndex(data, thresh, k - 1);
      ThreshEventsConsecutive(data, thresh, k - 1);
    }
  }

  /** No day above the threshold is missed: every such day lies inside some
      event, between its start and its end (or after the start of the open
      trailing event). */
  lemma ThreshEventsComplete(data: seq<Day>, thresh: real, i: nat)
    requires i < |data| && Above(data[i], thresh)
    ensures exists j :: (0 <= j < |ThreshEvents(data, thresh)| &&
      ThreshEvents(data, thresh)[j].start <= i &&
      (ThreshEvents(data, thresh)[j].close.Some? ==> i <= ThreshEvents(data, thresh)[j].close.value.end))
  {
    CoveredFrom(data, thresh, 0, i);
  }
}
