/** The data rules applied when a daily record is imported and when it is
    screened by season: negative-value cleaning, water-year labelling and the
    seasonal mask. A record is a set of parallel columns: the values (None for
    NaN), the `clean` tags, and the calendar attributes of each day. */
module DataRules {
  import opened Common
  import opened Months

  /** The `zero` argument of the import: False leaves the values alone, a
      number is a floor (True is the number 1, a bool being an int), any other
      value (such as "average") asks for the rolling-average cleaning. */
  datatype ZeroSetting = Flag(b: bool) | Number(z: real) | Other

  /** The `clean` column: which pass last set a day's value, if any. */
  datatype CleanTag = Raw | UserInput(z: real) | Average3 | Average5 | SetToZero

  /** A day selected by `data[var] < z`: a missing day compares false. */
  predicate Below(v: Option<real>, z: real)
  {
    v.Some? && v.value < z
  }

  /** No day of the column is below z. */
  predicate NoneBelow(vals: seq<Option<real>>, z: real)
  {
    forall i :: 0 <= i < |vals| ==> !Below(vals[i], z)
  }

  /** Whether some day is selected by `data[var] < 0` (a non-empty index). */
  function HasNegative(vals: seq<Option<real>>): (b: bool)
    ensures b <==> !NoneBelow(vals, 0.0)
  {
    exists i :: 0 <= i < |vals| && Below(vals[i], 0.0)
  }

  /** `rolling(3, center=True).mean()` at day i: the mean of days i - 1, i
      and i + 1, missing at either end of the record or when one of the three
      is missing. */
  function Centered3(vals: seq<Option<real>>, i: int): (r: Option<real>)
    requires 0 <= i < |vals|
    ensures r.Some? ==> 0 < i < |vals| - 1 && vals[i - 1].Some? && vals[i].Some? && vals[i + 1].Some?
    ensures r.Some? ==> r.value * 3.0 == vals[i - 1].value + vals[i].value + vals[i + 1].value
  {
    if 0 < i < |vals| - 1 && vals[i - 1].Some? && vals[i].Some? && vals[i + 1].Some?
    then Some((vals[i - 1].value + vals[i].value + vals[i + 1].value) / 3.0)
    else None
  }

  /** Numeric cleaning: every day below z is set to z and tagged with it.
      Afterwards no day is below z; every other day keeps its value and tag. */
  method FloorPass(vals: seq<Option<real>>, tags: seq<CleanTag>, z: real)
    returns (out: seq<Option<real>>, outTags: seq<CleanTag>)
    requires |tags| == |vals|
    ensures |out| == |vals| && |outTags| == |vals|
    ensures NoneBelow(out, z)
    ensures forall i :: 0 <= i < |vals| && !Below(vals[i], z) ==> out[i] == vals[i] && outTags[i] == tags[i]
    ensures forall i :: 0 <= i < |vals| && Below(vals[i], z) ==> out[i] == Some(z) && outTags[i] == UserInput(z)
  {
    out, outTags := vals, tags;
    for i := 0 to |vals|
      invariant |out| == |vals| && |outTags| == |vals|
      invariant forall j :: 0 <= j < i && !Below(vals[j], z) ==> out[j] == vals[j] && outTags[j] == tags[j]
      invariant forall j :: 0 <= j < i && Below(vals[j], z) ==> out[j] == Some(z) && outTags[j] == UserInput(z)
      invariant forall j :: i <= j < |vals| ==> out[j] == vals[j] && outTags[j] == tags[j]
    {
      if Below(vals[i], z) {
        out := out[i := Some(z)];
        outTags := outTags[i := UserInput(z)];
      }
    }
  }

  /** One rolling-average pass: every negative day takes the centred 3-day
      mean of the record as it stood before the pass (possibly missing) and
      the pass's tag; every other day is left alone. */
  method AveragePass(vals: seq<Option<real>>, tags: seq<CleanTag>, tag: CleanTag)
    returns (out: seq<Option<real>>, outTags: seq<CleanTag>)
    requires |tags| == |vals|
    ensures |out| == |vals| && |outTags| == |vals|
    ensures forall i :: 0 <= i < |vals| && !Below(vals[i], 0.0) ==> out[i] == vals[i] && outTags[i] == tags[i]
    ensures forall i :: 0 <= i < |vals| && Below(vals[i], 0.0) ==> out[i] == Centered3(vals, i) && outTags[i] == tag
  {
    out, outTags := vals, tags;
    for i := 0 to |vals|
      invariant |out| == |vals| && |outTags| == |vals|
      invariant forall j :: 0 <= j < i && !Below(vals[j], 0.0) ==> out[j] == vals[j] && outTags[j] == tags[j]
      invariant forall j :: 0 <= j < i && Below(vals[j], 0.0) ==> out[j] == Centered3(vals, j) && outTags[j] == tag
      invariant forall j :: i <= j < |vals| ==> out[j] == vals[j] && outTags[j] == tags[j]
    {
      if Below(vals[i], 0.0) {
        out := out[i := Centered3(vals, i)];
        outTags := outTags[i := tag];
      }
    }
  }

  /** The last pass: every day still negative is set to zero. */
  method ZeroPass(vals: seq<Option<real>>, tags: seq<CleanTag>)
    returns (out: seq<Option<real>>, outTags: seq<CleanTag>)
    requires |tags| == |vals|
    ensures |out| == |vals| && |outTags| == |vals|
    ensures NoneBelow(out, 0.0)
    ensures forall i :: 0 <= i < |vals| && !Below(vals[i], 0.0) ==> out[i] == vals[i] && outTags[i] == tags[i]
    ensures forall i :: 0 <= i < |vals| && Below(vals[i], 0.0) ==> out[i] == Some(0.0) && outTags[i] == SetToZero
  {
    out, outTags := vals, tags;
    for i := 0 to |vals|
      invariant |out| == |vals| && |outTags| == |vals|
      invariant forall j :: 0 <= j < i && !Below(vals[j], 0.0) ==> out[j] == vals[j] && outTags[j] == tags[j]
      invariant forall j :: 0 <= j < i && Below(vals[j], 0.0) ==> out[j] == Some(0.0) && outTags[j] == SetToZero
      invariant forall j :: i <= j < |vals| ==> out[j] == vals[j] && outTags[j] == tags[j]
    {
      if Below(vals[i], 0.0) {
        out := out[i := Some(0.0)];
        outTags := outTags[i := SetToZero];
      }
    }
  }

  /** The rolling-average cleaning: a 3-day pass, a second pass (tagged
      5-day but also a 3-day mean) and a set-to-zero pass, each run only
      when the one before left a negative day. No negative day remains; a
      day that was not negative keeps its value and its tag; a negative day
      at either end of the record becomes missing, since its centred mean
      is. */
  method CleanAverage(vals: seq<Option<real>>, tags: seq<CleanTag>)
    returns (out: seq<Option<real>>, outTags: seq<CleanTag>)
    requires |tags| == |vals|
    ensures |out| == |vals| && |outTags| == |vals|
    ensures NoneBelow(out, 0.0)
    ensures forall i :: 0 <= i < |vals| && !Below(vals[i], 0.0) ==> out[i] == vals[i] && outTags[i] == tags[i]
    ensures forall i :: 0 <= i < |vals| && Below(vals[i], 0.0) ==> outTags[i] in {Average3, Average5, SetToZero}
    ensures |vals| > 0 && Below(vals[0], 0.0) ==> out[0].None?
    ensures |vals| > 0 && Below(vals[|vals| - 1], 0.0) ==> out[|vals| - 1].None?
  {
    out, outTags := vals, tags;
    if HasNegative(out) {
      out, outTags := AveragePass(out, outTags, Average3);
      if HasNegative(out) {
        var out2, tags2 := AveragePass(out, outTags, Average5);
        if HasNegative(out2) {
          out, outTags := ZeroPass(out2, tags2);
        } else {
          out, outTags := out2, tags2;
        }
      }
    }
  }

  /** The cleaning step of the import, chosen by the `zero` argument: False
      leaves the record untouched, a number floors it (no day below the
      number afterwards), anything else cleans it by rolling averages (no
      negative day afterwards). A missing day is never filled in. */
  method Clean(vals: seq<Option<real>>, tags: seq<CleanTag>, zero: ZeroSetting)
    returns (out: seq<Option<real>>, outTags: seq<CleanTag>)
    requires |tags| == |vals|
    ensures |out| == |vals| && |outTags| == |vals|
    ensures zero == Flag(false) ==> out == vals && outTags == tags
    ensures zero == Flag(true) ==> NoneBelow(out, 1.0)
    ensures zero.Number? ==> NoneBelow(out, zero.z)
    ensures zero.Other? ==> NoneBelow(out, 0.0)
    ensures forall i :: 0 <= i < |vals| && vals[i].None? ==> out[i].None?
  {
    match zero
    case Flag(b) =>
      if b {
        out, outTags := FloorPass(vals, tags, 1.0);
      } else {
        out, outTags := vals, tags;
      }
    case Number(z) =>
      out, outTags := FloorPass(vals, tags, z);
    case Other =>
      out, outTags := CleanAverage(vals, tags);
  }

  /** Rounding a column to `decimal` places (a missing day stays missing). */
  function RoundColumn(vals: seq<Option<real>>, decimal: nat): (r: seq<Option<real>>)
    ensures |r| == |vals|
    ensures forall i :: 0 <= i < |vals| ==> (r[i].Some? <==> vals[i].Some?)
    ensures forall i :: 0 <= i < |vals| && vals[i].Some? ==> r[i].value == Round(vals[i].value, decimal)
  {
    seq(|vals|, i requires 0 <= i < |vals| => if vals[i].Some? then Some(Round(vals[i].value, decimal)) else None)
  }

  /** Rounding keeps a column free of negative days. */
  lemma RoundKeepsNonNegative(vals: seq<Option<real>>, decimal: nat)
    requires NoneBelow(vals, 0.0)
    ensures NoneBelow(RoundColumn(vals, decimal), 0.0)
  {
    var r := RoundColumn(vals, decimal);
    forall i | 0 <= i < |r| ensures !Below(r[i], 0.0) {
      assert !Below(vals[i], 0.0);
    }
  }

  /** The water year of a day: its calendar year, plus one from October on
      when the division is "WY"; under any other division the calendar
      year. */
  function WaterYear(year: int, month: int, division: string): int
  {
    if division == "WY" && month >= 10 then year + 1 else year
  }

  /** The `wy` column: first the calendar year of every day, then, under
      the "WY" division, the October-to-December days moved to the next
      year. */
  method LabelWaterYears(years: seq<int>, months: seq<int>, division: string) returns (wy: seq<int>)
    requires |months| == |years|
    ensures |wy| == |years|
    ensures forall i :: 0 <= i < |years| ==> wy[i] == WaterYear(years[i], months[i], division)
  {
    wy := years;
    if division == "WY" {
      for i := 0 to |years|
        invariant |wy| == |years|
        invariant forall j :: 0 <= j < i ==> wy[j] == WaterYear(years[j], months[j], division)
        invariant forall j :: i <= j < |years| ==> wy[j] == years[j]
      {
        if months[i] >= 10 {
          wy := wy[i := years[i] + 1];
        }
      }
    }
  }

  /** Water year y holds exactly October to December of year y - 1 and
      January to September of year y; under "CY" it is the calendar year. */
  lemma WaterYearMembers(year: int, month: int, y: int)
    requires IsMonth(month)
    ensures WaterYear(year, month, "WY") == y <==>
      (year == y - 1 && month >= 10) || (year == y && month <= 9)
    ensures WaterYear(year, month, "CY") == year
  {
  }

  /** A month's water year and its position on the water-year axis
      (October first) number the months consecutively: months in calendar
      order stay in order, so each water year is twelve consecutive
      months. */
  lemma WaterYearCountsMonths(year: int, month: int)
    requires IsMonth(month)
    ensures 12 * WaterYear(year, month, "WY") + WyPosition(month) == 12 * year + month + 3
  {
  }

  /** Calendar order of two (year, month) pairs carries over to their water
      years. */
  lemma WaterYearMonotone(y1: int, m1: int, y2: int, m2: int)
    requires IsMonth(m1) && IsMonth(m2)
    requires 12 * y1 + m1 <= 12 * y2 + m2
    ensures WaterYear(y1, m1, "WY") <= WaterYear(y2, m2, "WY")
  {
    WaterYearCountsMonths(y1, m1);
    WaterYearCountsMonths(y2, m2);
  }

  /** The largest entry of a non-empty list (Python `max`). */
  function Largest(s: seq<int>): (m: int)
    requires |s| > 0
    ensures m in s && forall x :: x in s ==> x <= m
  {
    if |s| == 1 then s[0]
    else
      var rest := Largest(s[1..]);
      assert forall x :: x in s[1..] ==> x <= rest;
      assert forall x :: x in s ==> x == s[0] || x in s[1..];
      if s[0] >= rest then s[0] else rest
  }

  /** Why the seasonal screen fails: `max` of an empty season list. */
  datatype SeasonError = EmptySeason

  /** The seasonal screen on a copy of the record: when no entry of the
      season exceeds 12 it is a list of months and every day outside them
      becomes missing; otherwise a two-entry season is an inclusive
      day-of-year range and every day outside it becomes missing; any other
      season leaves the record as it is. A day kept keeps its value. */
  method SeasonSubset(vals: seq<Option<real>>, months: seq<int>, doys: seq<int>, season: seq<int>)
    returns (r: Result<seq<Option<real>>, SeasonError>)
    requires |months| == |vals| && |doys| == |vals|
    ensures r.Err? <==> season == []
    ensures r.Ok? ==> |r.value| == |vals|
    ensures r.Ok? && Largest(season) <= 12 ==>
      forall i :: 0 <= i < |vals| ==> r.value[i] == (if months[i] in season then vals[i] else None)
    ensures r.Ok? && Largest(season) > 12 && |season| == 2 ==>
      forall i :: 0 <= i < |vals| ==> r.value[i] == (if season[0] <= doys[i] <= season[1] then vals[i] else None)
    ensures r.Ok? && Largest(season) > 12 && |season| != 2 ==> r.value == vals
  {
    if season == [] {
      return Err(EmptySeason);
    }
    var data := vals;
    if Largest(season) <= 12 {
      for i := 0 to |vals|
        invariant |data| == |vals|
        invariant forall j :: 0 <= j < i ==> data[j] == (if months[j] in season then vals[j] else None)
        invariant forall j :: i <= j < |vals| ==> data[j] == vals[j]
      {
        if months[i] !in season {
          data := data[i := None];
        }
      }
    } else if |season| == 2 {
      for i := 0 to |vals|
        invariant |data| == |vals|
        invariant forall j :: 0 <= j < i ==> data[j] == (if doys[j] < season[0] then None else vals[j])
        invariant forall j :: i <= j < |vals| ==> data[j] == vals[j]
      {
        if doys[i] < season[0] {
          data := data[i := None];
        }
      }
      ghost var first := data;
      for i := 0 to |vals|
        invariant |data| == |vals|
        invariant forall j :: 0 <= j < i ==> data[j] == (if doys[j] > season[1] then None else first[j])
        invariant forall j :: i <= j < |vals| ==> data[j] == first[j]
      {
        if doys[i] > season[1] {
          data := data[i := None];
        }
      }
    }
    r := Ok(data);
  }
}
