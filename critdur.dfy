/** Critical-duration statistics over an event table: strict screening by
    duration and peak, then the arithmetic mean duration, the peak-weighted
    mean duration sum(d*p)/sum(p) and the duration-weighted peak
    sum(d*p)/sum(d); and the per-month event counts and fractions. */
module CritDur {
  import opened Common
  import opened Events

  /** A row survives screening when it is closed and both its duration and
      its peak are strictly above the limits. An open row has no duration or
      peak (NaN), and a comparison with NaN is false. */
  predicate Kept(r: EventRow, minDur: int, minPeak: real)
  {
    r.close.Some? && r.close.value.duration > minDur && r.close.value.peak > minPeak
  }

  /** The duration and peak columns of the screened rows, in table order. */
  function Screen(evs: seq<EventRow>, minDur: int, minPeak: real): (s: seq<Closing>)
    ensures |s| <= |evs|
    ensures forall c :: c in s ==> c.duration > minDur && c.peak > minPeak
  {
    if evs == [] then []
    else (if Kept(evs[0], minDur, minPeak) then [evs[0].close.value] else [])
         + Screen(evs[1..], minDur, minPeak)
  }

  /** Screening keeps exactly the closed rows above both limits. */
  lemma {:induction false} ScreenMembers(evs: seq<EventRow>, minDur: int, minPeak: real)
    ensures forall r :: r in evs && Kept(r, minDur, minPeak) ==> r.close.value in Screen(evs, minDur, minPeak)
    ensures forall c :: c in Screen(evs, minDur, minPeak) ==>
              exists r :: r in evs && Kept(r, minDur, minPeak) && r.close == Some(c)
  {
    if evs != [] {
      ScreenMembers(evs[1..], minDur, minPeak);
      forall r | r in evs && Kept(r, minDur, minPeak)
        ensures r.close.value in Screen(evs, minDur, minPeak)
      {
        if r != evs[0] {
          assert r in evs[1..];
        }
      }
      forall c | c in Screen(evs, minDur, minPeak)
        ensures exists r :: r in evs && Kept(r, minDur, minPeak) && r.close == Some(c)
      {
        if Kept(evs[0], minDur, minPeak) && c == evs[0].close.value {
          assert evs[0] in evs;
        } else {
          assert c in Screen(evs[1..], minDur, minPeak);
          var r :| r in evs[1..] && Kept(r, minDur, minPeak) && r.close == Some(c);
          assert r in evs;
        }
      }
    }
  }

  /** Number of rows that survive screening (`lim_n`). */
  function CountKept(evs: seq<EventRow>, minDur: int, minPeak: real): (n: nat)
    ensures n <= |evs|
  {
    if evs == [] then 0
    else (if Kept(evs[0], minDur, minPeak) then 1 else 0) + CountKept(evs[1..], minDur, minPeak)
  }

  lemma {:induction false} ScreenLength(evs: seq<EventRow>, minDur: int, minPeak: real)
    ensures |Screen(evs, minDur, minPeak)| == CountKept(evs, minDur, minPeak)
  {
    if evs != [] {
      ScreenLength(evs[1..], minDur, minPeak);
    }
  }

  function SumDur(s: seq<Closing>): real
  {
    if s == [] then 0.0 else s[0].duration as real + SumDur(s[1..])
  }

  function SumPeak(s: seq<Closing>): real
  {
    if s == [] then 0.0 else s[0].peak + SumPeak(s[1..])
  }

  function SumDurPeak(s: seq<Closing>): real
  {
    if s == [] then 0.0 else s[0].duration as real * s[0].peak + SumDurPeak(s[1..])
  }

  /** Mean duration of the screened rows; None (NaN) when none survive. */
  function ArithmeticMean(s: seq<Closing>): (m: Option<real>)
    ensures m.Some? <==> |s| > 0
  {
    if |s| == 0 then None else Some(SumDur(s) / |s| as real)
  }

  /** Peak-weighted mean duration sum(d*p)/sum(p); None when sum(p) is 0. */
  function PeakWeightedMean(s: seq<Closing>): (m: Option<real>)
    ensures m.Some? <==> SumPeak(s) != 0.0
  {
    if SumPeak(s) == 0.0 then None else Some(SumDurPeak(s) / SumPeak(s))
  }

  /** Duration-weighted peak sum(d*p)/sum(d); None when sum(d) is 0. */
  function DurationWeightedPeak(s: seq<Closing>): (m: Option<real>)
    ensures m.Some? <==> SumDur(s) != 0.0
  {
    if SumDur(s) == 0.0 then None else Some(SumDurPeak(s) / SumDur(s))
  }

  /** Multiplication distributes over a sum. */
  lemma Distrib(x: real, a: real, b: real)
    ensures x * (a + b) == x * a + x * b
  {
  }

  /** Durations between `lo` and `hi` and non-negative peaks bound the
      weighted sum: lo * sum(p) <= sum(d*p) <= hi * sum(p). */
  lemma WeightedSumBounds(s: seq<Closing>, lo: real, hi: real)
    requires forall i :: 0 <= i < |s| ==> lo <= s[i].duration as real <= hi && s[i].peak >= 0.0
    ensures lo * SumPeak(s) <= SumDurPeak(s) <= hi * SumPeak(s)
  {
    WeightedSumLower(s, lo);
    WeightedSumUpper(s, hi);
  }

  lemma {:induction false} WeightedSumLower(s: seq<Closing>, lo: real)
    requires forall i :: 0 <= i < |s| ==> lo <= s[i].duration as real && s[i].peak >= 0.0
    ensures lo * SumPeak(s) <= SumDurPeak(s)
  {
    if s != [] {
      WeightedSumLower(s[1..], lo);
      var d, p := s[0].duration as real, s[0].peak;
      var rest := SumPeak(s[1..]);
      assert SumPeak(s) == p + rest;
      assert SumDurPeak(s) == d * p + SumDurPeak(s[1..]);
      ScaleLe(lo, d, p);
      Distrib(lo, p, rest);
      assert lo * SumPeak(s) == lo * (p + rest);
      assert lo * rest <= SumDurPeak(s[1..]);
      assert lo * p <= d * p;
      assert lo * (p + rest) == lo * p + lo * rest;
      assert lo * p + lo * rest <= SumDurPeak(s);
    }
  }

  lemma {:induction false} WeightedSumUpper(s: seq<Closing>, hi: real)
    requires forall i :: 0 <= i < |s| ==> s[i].duration as real <= hi && s[i].peak >= 0.0
    ensures SumDurPeak(s) <= hi * SumPeak(s)
  {
    if s != [] {
      WeightedSumUpper(s[1..], hi);
      var d, p := s[0].duration as real, s[0].peak;
      var rest := SumPeak(s[1..]);
      assert SumPeak(s) == p + rest;
      assert SumDurPeak(s) == d * p + SumDurPeak(s[1..]);
      ScaleLe(d, hi, p);
      Distrib(hi, p, rest);
      assert hi * SumPeak(s) == hi * (p + rest);
      assert SumDurPeak(s[1..]) <= hi * rest;
      assert d * p <= hi * p;
      assert hi * (p + rest) == hi * p + hi * rest;
      assert SumDurPeak(s) <= hi * p + hi * rest;
    }
  }

  /** Peaks between `lo` and `hi` and non-negative durations bound the
      weighted sum: lo * sum(d) <= sum(d*p) <= hi * sum(d). */
  lemma WeightedSumBoundsByPeak(s: seq<Closing>, lo: real, hi: real)
    requires forall i :: 0 <= i < |s| ==> lo <= s[i].peak <= hi
    ensures lo * SumDur(s) <= SumDurPeak(s) <= hi * SumDur(s)
    ensures SumDur(s) >= 0.0
  {
    ByPeakLower(s, lo);
    ByPeakUpper(s, hi);
    DurSumNonNegative(s);
  }

  lemma {:induction false} ByPeakLower(s: seq<Closing>, lo: real)
    requires forall i :: 0 <= i < |s| ==> lo <= s[i].peak
    ensures lo * SumDur(s) <= SumDurPeak(s)
  {
    if s != [] {
      ByPeakLower(s[1..], lo);
      assert SumDur(s) == s[0].duration as real + SumDur(s[1..]);
      assert SumDurPeak(s) == s[0].duration as real * s[0].peak + SumDurPeak(s[1..]);
      LowerStep(lo, s[0].duration as real, s[0].peak, SumDur(s[1..]), SumDurPeak(s[1..]), SumDur(s), SumDurPeak(s));
    }
  }

  lemma {:induction false} ByPeakUpper(s: seq<Closing>, hi: real)
    requires forall i :: 0 <= i < |s| ==> s[i].peak <= hi
    ensures SumDurPeak(s) <= hi * SumDur(s)
  {
    if s != [] {
      ByPeakUpper(s[1..], hi);
      assert SumDur(s) == s[0].duration as real + SumDur(s[1..]);
      assert SumDurPeak(s) == s[0].duration as real * s[0].peak + SumDurPeak(s[1..]);
      UpperStep(hi, s[0].duration as real, s[0].peak, SumDur(s[1..]), SumDurPeak(s[1..]), SumDur(s), SumDurPeak(s));
    }
  }

  lemma {:induction false} DurSumNonNegative(s: seq<Closing>)
    ensures SumDur(s) >= 0.0
  {
    if s != [] {
      DurSumNonNegative(s[1..]);
    }
  }

  /** One more row with a peak of at least `lo` keeps the weighted sum at
      least lo times the duration total. */
  lemma LowerStep(lo: real, d: real, p: real, rest: real, restP: real, total: real, totalP: real)
    requires d >= 0.0 && lo <= p && lo * rest <= restP
    requires total == d + rest && totalP == d * p + restP
    ensures lo * total <= totalP
  {
    ScaleLe(lo, p, d);
    Commute(p, d);
    Distrib(lo, d, rest);
    Commute(lo, d);
  }

  /** One more row with a peak of at most `hi` keeps the weighted sum at
      most hi times the duration total. */
  lemma UpperStep(hi: real, d: real, p: real, rest: real, restP: real, total: real, totalP: real)
    requires d >= 0.0 && p <= hi && restP <= hi * rest
    requires total == d + rest && totalP == d * p + restP
    ensures totalP <= hi * total
  {
    ScaleLe(p, hi, d);
    Commute(p, d);
    Distrib(hi, d, rest);
    Commute(hi, d);
  }

  lemma Commute(a: real, b: real)
    ensures a * b == b * a
  {
  }

  /** Durations between `lo` and `hi` bound their sum: lo * n <= sum(d) <= hi * n. */
  lemma {:induction false} DurSumBounds(s: seq<Closing>, lo: real, hi: real)
    requires forall i :: 0 <= i < |s| ==> lo <= s[i].duration as real <= hi
    ensures lo * |s| as real <= SumDur(s) <= hi * |s| as real
  {
    if s != [] {
      DurSumBounds(s[1..], lo, hi);
      var n := |s[1..]| as real;
      assert |s| as real == n + 1.0;
      assert SumDur(s) == s[0].duration as real + SumDur(s[1..]);
      Distrib(lo, n, 1.0);
      Distrib(hi, n, 1.0);
      assert lo * |s| as real == lo * (n + 1.0);
      assert hi * |s| as real == hi * (n + 1.0);
    }
  }

  /** When every screened row has a positive peak, the peak-weighted mean
      duration exists and lies between the smallest and largest screened
      durations; so does the arithmetic mean. */
  lemma MeansWithinDurations(s: seq<Closing>, lo: real, hi: real)
    requires |s| > 0
    requires forall c :: c in s ==> lo <= c.duration as real <= hi && c.peak > 0.0
    ensures PeakWeightedMean(s).Some? && lo <= PeakWeightedMean(s).value <= hi
    ensures ArithmeticMean(s).Some? && lo <= ArithmeticMean(s).value <= hi
  {
    forall i | 0 <= i < |s|
      ensures lo <= s[i].duration as real <= hi && s[i].peak >= 0.0
    {
      assert s[i] in s;
    }
    WeightedSumBounds(s, lo, hi);
    assert s[0] in s;
    PositivePeakSum(s);
    QuotientBounds(SumDurPeak(s), SumPeak(s), lo, hi);
    DurSumBounds(s, lo, hi);
    QuotientBounds(SumDur(s), |s| as real, lo, hi);
  }

  /** Scaling by a non-negative factor keeps order. */
  lemma ScaleLe(a: real, b: real, c: real)
    requires a <= b && c >= 0.0
    ensures a * c <= b * c
  {
    assert b * c - a * c == (b - a) * c;
  }

  /** lo * b <= a <= hi * b with b > 0 puts a / b between lo and hi. */
  lemma QuotientBounds(a: real, b: real, lo: real, hi: real)
    requires b > 0.0 && lo * b <= a <= hi * b
    ensures lo <= a / b <= hi
  {
    var q := a / b;
    assert q * b == a;
    assert (q - lo) * b == a - lo * b;
    assert (hi - q) * b == hi * b - a;
  }

  /** Dividing a sum is summing the quotients. */
  lemma DivAdd(a: real, b: real, n: real)
    requires n != 0.0
    ensures a / n + b / n == (a + b) / n
  {
  }

  lemma {:induction false} PositivePeakSum(s: seq<Closing>)
    requires |s| > 0 && forall c :: c in s ==> c.peak > 0.0
    ensures SumPeak(s) > 0.0
  {
    if |s| > 1 {
      assert forall c :: c in s[1..] ==> c in s;
      PositivePeakSum(s[1..]);
    } else {
      assert s[1..] == [];
    }
  }

  /** The duration-weighted peak lies between the smallest and largest
      screened peaks (durations are at least one day). */
  lemma PeakWithinPeaks(s: seq<Closing>, lo: real, hi: real)
    requires |s| > 0
    requires forall c :: c in s ==> lo <= c.peak <= hi && c.duration >= 1
    ensures DurationWeightedPeak(s).Some? && lo <= DurationWeightedPeak(s).value <= hi
  {
    forall i | 0 <= i < |s|
      ensures lo <= s[i].peak <= hi && s[i].duration >= 1
    {
      assert s[i] in s;
    }
    WeightedSumBoundsByPeak(s, lo, hi);
    DurSumAtLeastCount(s);
    QuotientBounds(SumDurPeak(s), SumDur(s), lo, hi);
  }

  /** Durations of at least one day sum to at least the number of rows. */
  lemma {:induction false} DurSumAtLeastCount(s: seq<Closing>)
    requires forall i :: 0 <= i < |s| ==> s[i].duration >= 1
    ensures SumDur(s) >= |s| as real
  {
    if s != [] {
      DurSumAtLeastCount(s[1..]);
    }
  }

  /** Largest duration of the screened rows (0 for none). */
  function MaxDuration(s: seq<Closing>): (m: nat)
    ensures forall c :: c in s ==> c.duration <= m
  {
    if s == [] then 0
    else
      var rest := MaxDuration(s[1..]);
      assert forall c :: c in s ==> c == s[0] || c in s[1..];
      if s[0].duration >= rest then s[0].duration else rest
  }

  /** Screened statistics of `analyze_critdur`: `lim_dur` (peak-weighted mean
      duration), `lim_peak` (duration-weighted peak), `lim_n` and
      `lim_dur_avg` (arithmetic mean duration). */
  datatype CritStats = CritStats(limDur: Option<real>, limPeak: Option<real>, limN: nat, limDurAvg: Option<real>)

  /** With non-negative limits every screened row has duration >= 1 and a
      positive peak, so all three averages exist and lie within the range of
      screened durations (for the two means) or peaks (for the weighted
      peak). */
  lemma ScreenedBounds(evs: seq<EventRow>, minDur: int, minPeak: real)
    ensures var s := Screen(evs, minDur, minPeak);
      minDur >= 0 && minPeak >= 0.0 && |s| > 0 ==>
        && PeakWeightedMean(s).Some? && ArithmeticMean(s).Some? && DurationWeightedPeak(s).Some?
        && MinDuration(s) as real <= PeakWeightedMean(s).value <= MaxDuration(s) as real
        && MinDuration(s) as real <= ArithmeticMean(s).value <= MaxDuration(s) as real
        && MinPeak(s) <= DurationWeightedPeak(s).value <= MaxPeak(s)
  {
    var s := Screen(evs, minDur, minPeak);
    if minDur >= 0 && minPeak >= 0.0 && |s| > 0 {
      MeansWithinDurations(s, MinDuration(s) as real, MaxDuration(s) as real);
      PeakWithinPeaks(s, MinPeak(s), MaxPeak(s));
    }
  }

  function AnalyzeCritDur(evs: seq<EventRow>, minDur: int, minPeak: real): (r: CritStats)
    ensures r.limN == CountKept(evs, minDur, minPeak)
    ensures r.limDurAvg.Some? <==> r.limN > 0
    ensures var s := Screen(evs, minDur, minPeak);
      minDur >= 0 && minPeak >= 0.0 && |s| > 0 ==>
        && r.limDur.Some? && r.limPeak.Some? && r.limDurAvg.Some?
        && MinDuration(s) as real <= r.limDur.value <= MaxDuration(s) as real
        && MinDuration(s) as real <= r.limDurAvg.value <= MaxDuration(s) as real
        && MinPeak(s) <= r.limPeak.value <= MaxPeak(s)
  {
    var s := Screen(evs, minDur, minPeak);
    ScreenLength(evs, minDur, minPeak);
    ScreenedBounds(evs, minDur, minPeak);
    CritStats(PeakWeightedMean(s), DurationWeightedPeak(s), |s|, ArithmeticMean(s))
  }

  /** Smallest duration of a non-empty sequence of screened rows. */
  function MinDuration(s: seq<Closing>): (m: nat)
    requires |s| > 0
    ensures forall c :: c in s ==> m <= c.duration
  {
    if |s| == 1 then s[0].duration
    else
      var rest := MinDuration(s[1..]);
      assert forall c :: c in s ==> c == s[0] || c in s[1..];
      if s[0].duration <= rest then s[0].duration else rest
  }

  function MinPeak(s: seq<Closing>): (m: real)
    requires |s| > 0
    ensures forall c :: c in s ==> m <= c.peak
  {
    if |s| == 1 then s[0].peak
    else
      var rest := MinPeak(s[1..]);
      assert forall c :: c in s ==> c == s[0] || c in s[1..];
      if s[0].peak <= rest then s[0].peak else rest
  }

  function MaxPeak(s: seq<Closing>): (m: real)
    requires |s| > 0
    ensures forall c :: c in s ==> c.peak <= m
  {
    if |s| == 1 then s[0].peak
    else
      var rest := MaxPeak(s[1..]);
      assert forall c :: c in s ==> c == s[0] || c in s[1..];
      if s[0].peak >= rest then s[0].peak else rest
  }

  /** Which average `plot_and_calc_durations` draws; the geometric one is not
      part of this model. */
  datatype Average = Arithmetic | PeakWeight

  /** The screened average of `plot_and_calc_durations`, with the number of
      screened events. */
  function ScreenedAverage(evs: seq<EventRow>, minDur: int, minPeak: real, kind: Average): (r: (nat, Option<real>))
    ensures r.0 == CountKept(evs, minDur, minPeak)
    ensures kind == Arithmetic ==> (r.1.Some? <==> r.0 > 0)
    ensures var s := Screen(evs, minDur, minPeak);
      minDur >= 0 && minPeak >= 0.0 && |s| > 0 ==>
        r.1.Some? && MinDuration(s) as real <= r.1.value <= MaxDuration(s) as real
  {
    var st := AnalyzeCritDur(evs, minDur, minPeak);
    (st.limN, if kind == Arithmetic then st.limDurAvg else st.limDur)
  }

  // ---------------------------------------------------------------------
  // Events per month.

  /** Number of rows whose month is `m`. */
  function CountMonth(evs: seq<EventRow>, m: int): (n: nat)
    ensures n <= |evs|
  {
    if evs == [] then 0 else (if evs[0].month == m then 1 else 0) + CountMonth(evs[1..], m)
  }

  /** Durations of the closed rows whose month is `m` (an open row's NaN
      duration is skipped by the mean). */
  function MonthDurations(evs: seq<EventRow>, m: int): seq<real>
  {
    if evs == [] then []
    else (if evs[0].month == m && evs[0].close.Some? then [evs[0].close.value.duration as real] else [])
         + MonthDurations(evs[1..], m)
  }

  /** One row of the monthly table. */
  datatype MonthStat = MonthStat(month: int, avgDur: Option<real>, count: nat, fraction: Option<real>)

  function MonthStatOf(evs: seq<EventRow>, m: int): MonthStat
  {
    var ds := MonthDurations(evs, m);
    var n := CountMonth(evs, m);
    MonthStat(m,
              if ds == [] then None else Some(Sum(ds) / |ds| as real),
              n,
              if |evs| == 0 then None else Some(n as real / |evs| as real))
  }

  /** The monthly table, filled month by month for months 1 to 12. */
  method AnalyzeMonthlyDur(evs: seq<EventRow>) returns (stats: seq<MonthStat>)
    ensures |stats| == 12
    ensures forall m :: 0 <= m < 12 ==> stats[m] == MonthStatOf(evs, m + 1)
    ensures forall m :: 0 <= m < 12 ==> stats[m].month == m + 1 && stats[m].count == CountMonth(evs, m + 1)
    ensures |evs| > 0 ==> forall m :: 0 <= m < 12 ==>
      stats[m].fraction == Some(CountMonth(evs, m + 1) as real / |evs| as real)
    ensures (forall r :: r in evs ==> 1 <= r.month <= 12) ==>
      TotalCount(stats) == |evs| && (|evs| > 0 ==> TotalFraction(stats) == 1.0)
  {
    stats := [];
    for m := 0 to 12
      invariant |stats| == m
      invariant forall j :: 0 <= j < m ==> stats[j] == MonthStatOf(evs, j + 1)
    {
      var ds := MonthDurations(evs, m + 1);
      var avg := if ds == [] then None else Some(Sum(ds) / |ds| as real);
      var count := CountMonth(evs, m + 1);
      var fraction := if |evs| == 0 then None else Some(count as real / |evs| as real);
      stats := stats + [MonthStat(m + 1, avg, count, fraction)];
    }
    if forall r :: r in evs ==> 1 <= r.month <= |stats| {
      MonthlyTotals(evs, stats);
    }
  }

  /** Counts of months 1..m. */
  function CountsUpTo(evs: seq<EventRow>, m: nat): nat
  {
    if m == 0 then 0 else CountsUpTo(evs, m - 1) + CountMonth(evs, m)
  }

  /** Rows whose month lies in 1..m. */
  function CountInMonths(evs: seq<EventRow>, m: nat): (n: nat)
    ensures n <= |evs|
  {
    if evs == [] then 0
    else (if 1 <= evs[0].month <= m then 1 else 0) + CountInMonths(evs[1..], m)
  }

  lemma {:induction false} CountsUpToIsCountInMonths(evs: seq<EventRow>, m: nat)
    ensures CountsUpTo(evs, m) == CountInMonths(evs, m)
  {
    if evs == [] {
      CountsUpToEmpty(m);
    } else {
      CountsUpToIsCountInMonths(evs[1..], m);
      CountsUpToCons(evs, m);
    }
  }

  lemma {:induction false} CountsUpToEmpty(m: nat)
    ensures CountsUpTo([], m) == 0
  {
    if m > 0 {
      CountsUpToEmpty(m - 1);
    }
  }

  lemma {:induction false} CountsUpToCons(evs: seq<EventRow>, m: nat)
    requires evs != []
    ensures CountsUpTo(evs, m) == (if 1 <= evs[0].month <= m then 1 else 0) + CountsUpTo(evs[1..], m)
  {
    if m > 0 {
      CountsUpToCons(evs, m - 1);
    }
  }

  lemma {:induction false} AllInMonths(evs: seq<EventRow>, m: nat)
    requires forall r :: r in evs ==> 1 <= r.month <= m
    ensures CountInMonths(evs, m) == |evs|
  {
    if evs != [] {
      assert forall r :: r in evs[1..] ==> r in evs;
      AllInMonths(evs[1..], m);
    }
  }

  /** Sum of the `count` column of a monthly table. */
  function TotalCount(stats: seq<MonthStat>): nat
  {
    if stats == [] then 0 else TotalCount(stats[..|stats| - 1]) + stats[|stats| - 1].count
  }

  /** Sum of the `fraction` column of a monthly table (a missing fraction
      adds nothing). */
  function TotalFraction(stats: seq<MonthStat>): real
  {
    if stats == [] then 0.0
    else TotalFraction(stats[..|stats| - 1])
         + (if stats[|stats| - 1].fraction.Some? then stats[|stats| - 1].fraction.value else 0.0)
  }

  lemma {:induction false} PrefixTotals(evs: seq<EventRow>, stats: seq<MonthStat>, k: nat)
    requires k <= |stats|
    requires forall m :: 0 <= m < |stats| ==> stats[m] == MonthStatOf(evs, m + 1)
    ensures TotalCount(stats[..k]) == CountsUpTo(evs, k)
    ensures |evs| > 0 ==> TotalFraction(stats[..k]) == CountsUpTo(evs, k) as real / |evs| as real
  {
    if k > 0 {
      PrefixTotals(evs, stats, k - 1);
      assert stats[..k][..k - 1] == stats[..k - 1];
      assert stats[..k][k - 1] == MonthStatOf(evs, k);
      if |evs| > 0 {
        var n := |evs| as real;
        DivAdd(CountsUpTo(evs, k - 1) as real, CountMonth(evs, k) as real, n);
      }
    }
  }

  /** When every event month is one of the table's months (1..12 for the
      monthly table), its counts add up to the number of events and, when
      there are events, its fractions add up to 1. */
  lemma MonthlyTotals(evs: seq<EventRow>, stats: seq<MonthStat>)
    requires forall m :: 0 <= m < |stats| ==> stats[m] == MonthStatOf(evs, m + 1)
    requires forall r :: r in evs ==> 1 <= r.month <= |stats|
    ensures TotalCount(stats) == |evs|
    ensures |evs| > 0 ==> TotalFraction(stats) == 1.0
  {
    PrefixTotals(evs, stats, |stats|);
    assert stats[..|stats|] == stats;
    CountsUpToIsCountInMonths(evs, |stats|);
    AllInMonths(evs, |stats|);
  }
}
