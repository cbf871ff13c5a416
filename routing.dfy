/** Level-pool reservoir routing: a daily inflow hydrograph is routed through
    a reservoir described by a rating table (forebay elevation FB, storage AF
    in acre-feet, outflow QD), by mass balance from one day to the next, with
    the outflow cut back whenever it would draw storage below its start. */
module Routing {
  import opened Common
  import opened Interpolation

  /** The rating table's three columns, row for row. */
  datatype Rating = Rating(fb: seq<real>, af: seq<real>, qd: seq<real>)

  /** One row of the routing output: inflow, forebay, storage, outflow. */
  datatype RoutedRow = RoutedRow(q: real, fb: real, af: real, qd: real)

  /** The floor correction: when a day's storage plus its net inflow would
      fall below the starting storage, the outflow becomes the one that
      leaves exactly the starting storage. */
  function FloorCorrect(af: real, q: real, qd: real, startAf: real): real
  {
    if af + AcreFeet(q - qd) < startAf
    then CfsDays(af) + q - CfsDays(startAf)
    else qd
  }

  /** The corrected outflow never lets the projected storage drop below the
      start; when the correction applies it lands exactly on the start and
      is strictly smaller than the outflow it replaces; otherwise the
      outflow is kept. */
  lemma FloorCorrectMeets(af: real, q: real, qd: real, startAf: real)
    ensures var c := FloorCorrect(af, q, qd, startAf);
      && af + AcreFeet(q - c) >= startAf
      && (af + AcreFeet(q - qd) < startAf ==>
            af + AcreFeet(q - c) == startAf && c < qd)
      && (af + AcreFeet(q - qd) >= startAf ==> c == qd)
  {
  }

  /** On the first day the starting storage is kept, so the correction
      reduces to capping the outflow at the inflow. */
  lemma FirstDayCap(q: real, qd: real, startAf: real)
    ensures FloorCorrect(startAf, q, qd, startAf) == if q < qd then q else qd
  {
  }

  /** One day of routing from the previous day's row (None on the first
      day). The forebay comes from storage with two decimals, the outflow
      from the forebay; a failed look-up fails the day. */
  function DayRow(q: real, prev: Option<RoutedRow>, start: real, startAf: real, rating: Rating): (r: Result<RoutedRow, InterpError>)
  {
    match prev
    case None =>
      (match Interp(start, rating.fb, rating.qd, 0)
       case Err(e) => Err(e)
       case Ok(qd) => Ok(Finish(q, start, startAf, qd, startAf)))
    case Some(p) =>
      var af := p.af + AcreFeet(q - p.qd);
      match Interp(af, rating.af, rating.fb, 2)
      case Err(e) => Err(e)
      case Ok(fb) =>
        match Interp(fb, rating.fb, rating.qd, 0)
        case Err(e) => Err(e)
        case Ok(qd) => Ok(Finish(q, fb, af, qd, startAf))
  }

  /** One day of routing as a function of the day's inflow and the row
      before it. */
  type DayStep = (real, Option<RoutedRow>) -> Result<RoutedRow, InterpError>

  /** The day step of a routing from a given start and rating table. */
  function StepOf(start: real, startAf: real, rating: Rating): DayStep
  {
    (q, prev) => DayRow(q, prev, start, startAf, rating)
  }

  /** The first `n` rows of a routing by `step`, or the first failure. */
  function Routed(hydro: seq<real>, step: DayStep, n: nat): (r: Result<seq<RoutedRow>, InterpError>)
    requires n <= |hydro|
    ensures r.Ok? ==> |r.value| == n
  {
    if n == 0 then Ok([])
    else
      match Routed(hydro, step, n - 1)
      case Err(e) => Err(e)
      case Ok(rows) => Extend(rows, step(hydro[n - 1], Last(rows)))
  }

  /** The row before the next day, if there is one. */
  function Last(rows: seq<RoutedRow>): Option<RoutedRow>
  {
    if rows == [] then None else Some(rows[|rows| - 1])
  }

  /** The rows so far followed by the next day's row, or its failure. */
  function Extend(rows: seq<RoutedRow>, r: Result<RoutedRow, InterpError>): Result<seq<RoutedRow>, InterpError>
  {
    match r
    case Err(e) => Err(e)
    case Ok(row) => Ok(rows + [row])
  }

  /** The whole routing: the starting storage is looked up first. */
  function RouteSpec(hydro: seq<real>, start: real, rating: Rating): Result<seq<RoutedRow>, InterpError>
  {
    match Interp(start, rating.fb, rating.af, 0)
    case Err(e) => Err(e)
    case Ok(startAf) => Routed(hydro, StepOf(start, startAf, rating), |hydro|)
  }

  /** Once a day fails, the routing stays failed with that day's error. */
  lemma {:induction false} ErrPersists(hydro: seq<real>, step: DayStep, i: nat, n: nat)
    requires i <= n <= |hydro| && Routed(hydro, step, i).Err?
    ensures Routed(hydro, step, n) == Routed(hydro, step, i)
    decreases n - i
  {
    if i < n {
      ErrPersists(hydro, step, i, n - 1);
    }
  }

  /** One more day either extends the rows or ends the routing with its
      error. */
  lemma RoutedNext(hydro: seq<real>, step: DayStep, i: nat, rows: seq<RoutedRow>, r: Result<RoutedRow, InterpError>)
    requires i < |hydro| && Routed(hydro, step, i) == Ok(rows)
    requires r == step(hydro[i], Last(rows))
    ensures r.Err? ==> Routed(hydro, step, |hydro|) == Err(r.error)
    ensures r.Ok? ==> Routed(hydro, step, i + 1) == Ok(rows + [r.value])
  {
    if r.Err? {
      ErrPersists(hydro, step, i + 1, |hydro|);
    }
  }

  /** The routing as the source runs it: one output row per inflow day,
      filled in day order, each day computed from the row before it; the
      first failed look-up ends the routing. */
  method Route(hydro: seq<real>, start: real, rating: Rating) returns (out: Result<seq<RoutedRow>, InterpError>)
    ensures out == RouteSpec(hydro, start, rating)
    ensures out.Ok? ==> |out.value| == |hydro| && Balanced(hydro, start, Interp(start, rating.fb, rating.af, 0).value, out.value)
    ensures ValidRating(rating) ==> out.Ok?
  {
    var sa := Interp(start, rating.fb, rating.af, 0);
    if ValidRating(rating) {
      InterpTotal(start, rating.fb, rating.af, 0);
    }
    if sa.Err? {
      return Err(sa.error);
    }
    var startAf := sa.value;
    var rows: seq<RoutedRow> := [];
    for i := 0 to |hydro|
      invariant Routed(hydro, StepOf(start, startAf, rating), i) == Ok(rows)
      invariant Balanced(hydro, start, startAf, rows)
    {
      var prev := if i == 0 then None else Some(rows[i - 1]);
      assert prev == Last(rows);
      var day := DayRow(hydro[i], prev, start, startAf, rating);
      RoutedNext(hydro, StepOf(start, startAf, rating), i, rows, day);
      if ValidRating(rating) {
        DayRowTotal(hydro[i], prev, start, startAf, rating);
      }
      if day.Err? {
        return Err(day.error);
      }
      DayRowBalanced(hydro[i], prev, start, startAf, rating);
      BalancedSnoc(hydro, start, startAf, rows, day.value);
      rows := rows + [day.value];
    }
    return Ok(rows);
  }

  // ---------------------------------------------------------------------
  // What a successful routing satisfies.

  /** Mass balance and the floor, for the first `n` rows: one row per day
      with that day's inflow; day 0 starts at the starting forebay and
      storage; every later day's storage is the previous storage plus the
      previous day's net inflow (using the previous, corrected outflow); and
      no day's projected storage falls below the start. */
  predicate Balanced(hydro: seq<real>, start: real, startAf: real, rows: seq<RoutedRow>)
  {
    && |rows| <= |hydro|
    && (forall i :: 0 <= i < |rows| ==> rows[i].q == hydro[i])
    && (|rows| > 0 ==> rows[0].fb == start && rows[0].af == startAf)
    && (forall i :: 1 <= i < |rows| ==>
          rows[i].af == rows[i - 1].af + AcreFeet(hydro[i] - rows[i - 1].qd))
    && (forall i :: 0 <= i < |rows| ==>
          rows[i].af + AcreFeet(rows[i].q - rows[i].qd) >= startAf)
  }

  /** The row a day ends with, once its storage, forebay and looked-up
      outflow are known: the outflow passes through the floor correction. */
  function Finish(q: real, fb: real, af: real, qd: real, startAf: real): (row: RoutedRow)
    ensures row.q == q && row.fb == fb && row.af == af
    ensures row.af + AcreFeet(q - row.qd) >= startAf
  {
    FloorCorrectMeets(af, q, qd, startAf);
    RoutedRow(q, fb, af, FloorCorrect(af, q, qd, startAf))
  }

  /** What one successful day keeps: the day's inflow, the start on the
      first day, the mass balance from the day before, and the floor. */
  lemma DayRowBalanced(q: real, prev: Option<RoutedRow>, start: real, startAf: real, rating: Rating)
    requires DayRow(q, prev, start, startAf, rating).Ok?
    ensures var row := DayRow(q, prev, start, startAf, rating).value;
      && row.q == q
      && (prev.None? ==> row.fb == start && row.af == startAf)
      && (prev.Some? ==> row.af == prev.value.af + AcreFeet(q - prev.value.qd))
      && row.af + AcreFeet(q - row.qd) >= startAf
  {
  }

  lemma BalancedSnoc(hydro: seq<real>, start: real, startAf: real, rows: seq<RoutedRow>, row: RoutedRow)
    requires Balanced(hydro, start, startAf, rows) && |rows| < |hydro|
    requires row.q == hydro[|rows|]
    requires |rows| == 0 ==> row.fb == start && row.af == startAf
    requires |rows| > 0 ==> row.af == rows[|rows| - 1].af + AcreFeet(hydro[|rows|] - rows[|rows| - 1].qd)
    requires row.af + AcreFeet(row.q - row.qd) >= startAf
    ensures Balanced(hydro, start, startAf, rows + [row])
  {
  }

  /** A usable rating table: three columns of one length, forebay and
      storage strictly increasing. */
  predicate ValidRating(rating: Rating)
  {
    && |rating.fb| > 0
    && |rating.fb| == |rating.af| == |rating.qd|
    && StrictlyAscending(rating.fb)
    && StrictlyAscending(rating.af)
  }

  /** With a usable rating table every look-up of a day succeeds. */
  lemma DayRowTotal(q: real, prev: Option<RoutedRow>, start: real, startAf: real, rating: Rating)
    requires ValidRating(rating)
    ensures DayRow(q, prev, start, startAf, rating).Ok?
  {
    InterpTotal(start, rating.fb, rating.qd, 0);
    if prev.Some? {
      var af := prev.value.af + AcreFeet(q - prev.value.qd);
      InterpTotal(af, rating.af, rating.fb, 2);
      InterpTotal(Interp(af, rating.af, rating.fb, 2).value, rating.fb, rating.qd, 0);
    }
  }
}
