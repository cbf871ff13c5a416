/** Flow-duration analysis: for each range of months, the daily values of
    those months ranked from largest to smallest with Weibull exceedance
    probabilities rank / (n + 1), and a summary table that reads the ranked
    values at chosen exceedance probabilities.

    Two versions are modelled. src/flow_functions.py drops missing days
    before ranking, reads a probability by numpy's linear interpolation, has
    "Max" and "Min" rows and skips a month range with no data. functions.py
    keeps missing days (ranked last, and counted in n), reads a
    probability off the row whose exceedance is nearest, and rounds to
    whole units. */
module FlowDur {
  import opened Common
  import opened Interpolation
  import opened Ranking
  import opened Combos

  // ---------------------------------------------------------------------
  // Selecting the days of a month range.

  /** The values of the days whose month is in `combo`, in date order. */
  function Selected(q: seq<Option<real>>, month: seq<int>, combo: seq<int>): (s: seq<Option<real>>)
    requires |q| == |month|
    ensures |s| <= |q|
  {
    if q == [] then []
    else (if month[0] in combo then [q[0]] else []) + Selected(q[1..], month[1..], combo)
  }

  /** A day is selected exactly when its month is in the range: every such
      day's value is kept, every kept value comes from such a day, and when
      every month is in the range nothing is dropped. */
  lemma {:induction false} SelectedMembers(q: seq<Option<real>>, month: seq<int>, combo: seq<int>)
    requires |q| == |month|
    ensures forall i :: 0 <= i < |q| && month[i] in combo ==> q[i] in Selected(q, month, combo)
    ensures forall x :: x in Selected(q, month, combo) ==>
      exists i :: 0 <= i < |q| && month[i] in combo && q[i] == x
    ensures (forall i :: 0 <= i < |q| ==> month[i] in combo) ==> Selected(q, month, combo) == q
  {
    if q != [] {
      var s := Selected(q, month, combo);
      var rest := Selected(q[1..], month[1..], combo);
      SelectedMembers(q[1..], month[1..], combo);
      assert s == (if month[0] in combo then [q[0]] else []) + rest;
      forall i | 0 <= i < |q| && month[i] in combo ensures q[i] in s {
        if i > 0 {
          assert q[1..][i - 1] == q[i] && month[1..][i - 1] == month[i];
        }
      }
      forall x | x in s ensures exists i :: 0 <= i < |q| && month[i] in combo && q[i] == x {
        if !(month[0] in combo && x == q[0]) {
          assert x in rest;
          var i :| 0 <= i < |q[1..]| && month[1..][i] in combo && q[1..][i] == x;
          assert month[i + 1] in combo && q[i + 1] == x;
        }
      }
      if forall i :: 0 <= i < |q| ==> month[i] in combo {
        assert forall i :: 0 <= i < |q[1..]| ==> month[1..][i] in combo by {
          forall i | 0 <= i < |q[1..]| ensures month[1..][i] in combo {
            assert month[1..][i] == month[i + 1];
          }
        }
        assert q == [q[0]] + q[1..];
      }
    }
  }

  // ---------------------------------------------------------------------
  // Exceedance probabilities.

  /** Weibull exceedance probability of the value of 0-based rank i among n. */
  function Exceedance(i: nat, n: nat): real
  {
    (i + 1) as real / (n + 1) as real
  }

  /** The `exceeded` column for n ranked values. */
  function Exceedances(n: nat): (e: seq<real>)
    ensures |e| == n
    ensures forall i :: 0 <= i < n ==> e[i] == Exceedance(i, n)
  {
    seq(n, i requires 0 <= i < n => Exceedance(i, n))
  }

  lemma DivLess(a: real, b: real, c: real)
    requires a < b && c > 0.0
    ensures a / c < b / c
  {
    assert b / c - a / c == (b - a) / c;
  }

  /** The exceedance probabilities of n values rise strictly with rank and
      lie strictly between 0 and 1. */
  lemma ExceedancesSpec(n: nat)
    ensures StrictlyAscending(Exceedances(n))
    ensures forall i :: 0 <= i < n ==> 0.0 < Exceedances(n)[i] < 1.0
  {
    var e := Exceedances(n);
    forall i, j | 0 <= i < j < n ensures e[i] < e[j] {
      DivLess((i + 1) as real, (j + 1) as real, (n + 1) as real);
    }
    forall i | 0 <= i < n ensures 0.0 < e[i] < 1.0 {
      FractionInUnit((i + 1) as real, (n + 1) as real);
    }
  }

  // ---------------------------------------------------------------------
  // calculate_ep in src/flow_functions.py: missing days dropped.

  /** The ranked values of a month range and their exceedance probabilities. */
  datatype EpTable = EpTable(values: seq<real>, exceeded: seq<real>)

  predicate WellFormedEp(ep: EpTable)
  {
    |ep.values| == |ep.exceeded| && StrictlyAscending(ep.exceeded)
  }

  function CalculateEp(q: seq<Option<real>>, month: seq<int>, combo: seq<int>): (ep: EpTable)
    requires |q| == |month|
    ensures WellFormedEp(ep)
  {
    var v := SortDesc(Present(Selected(q, month, combo)));
    ExceedancesSpec(|v|);
    EpTable(v, Exceedances(|v|))
  }

  /** The table holds exactly the present values of the selected days, from
      largest to smallest, with exceedance probabilities rising strictly
      inside (0, 1). */
  lemma CalculateEpSpec(q: seq<Option<real>>, month: seq<int>, combo: seq<int>)
    requires |q| == |month|
    ensures var ep := CalculateEp(q, month, combo);
      && multiset(ep.values) == multiset(Present(Selected(q, month, combo)))
      && Descending(ep.values)
      && ep.exceeded == Exceedances(|ep.values|)
      && (forall i :: 0 <= i < |ep.exceeded| ==> 0.0 < ep.exceeded[i] < 1.0)
  {
    var v := Present(Selected(q, month, combo));
    SortDescDescending(v);
    SortDescPermutes(v);
    ExceedancesSpec(|v|);
  }

  // ---------------------------------------------------------------------
  // calculate_ep in functions.py: missing days kept and ranked last.

  datatype LegacyEpTable = LegacyEpTable(flow: seq<Option<real>>, exceeded: seq<real>)

  function CalculateEpLegacy(q: seq<Option<real>>, month: seq<int>, combo: seq<int>): (ep: LegacyEpTable)
    requires |q| == |month|
    ensures |ep.flow| == |ep.exceeded| == |Selected(q, month, combo)|
  {
    var s := Selected(q, month, combo);
    var v := SortDesc(Present(s));
    PresentPlusMissing(s);
    LegacyEpTable(Somes(v) + Nones(CountMissing(s)), Exceedances(|s|))
  }

  /** The ranked present values as a column that may hold missing values. */
  function Somes(v: seq<real>): (r: seq<Option<real>>)
    ensures |r| == |v| && forall i :: 0 <= i < |v| ==> r[i] == Some(v[i])
  {
    seq(|v|, i requires 0 <= i < |v| => Some(v[i]))
  }

  /** n missing values. */
  function Nones(n: nat): (r: seq<Option<real>>)
    ensures |r| == n && forall i :: 0 <= i < n ==> r[i] == None
  {
    seq(n, _ => None)
  }

  /** Every selected day gets a row, missing ones included; present values
      come first from largest to smallest and keep their multiplicities,
      missing ones follow; exceedance counts the missing rows in n. */
  lemma CalculateEpLegacySpec(q: seq<Option<real>>, month: seq<int>, combo: seq<int>)
    requires |q| == |month|
    ensures var ep := CalculateEpLegacy(q, month, combo);
      var s := Selected(q, month, combo);
      && multiset(Present(ep.flow)) == multiset(Present(s))
      && (forall i, j :: 0 <= i < j < |ep.flow| && ep.flow[j].Some? ==>
            ep.flow[i].Some? && ep.flow[i].value >= ep.flow[j].value)
      && CountMissing(ep.flow) == CountMissing(s)
      && StrictlyAscending(ep.exceeded)
      && (forall i :: 0 <= i < |ep.exceeded| ==> ep.exceeded[i] == Exceedance(i, |s|))
  {
    var s := Selected(q, month, combo);
    var v := SortDesc(Present(s));
    var ep := CalculateEpLegacy(q, month, combo);
    var somes, nones := Somes(v), Nones(CountMissing(s));
    assert ep.flow == somes + nones;
    SortDescDescending(Present(s));
    SortDescPermutes(Present(s));
    PresentOfSomes(v);
    PresentOfNones(CountMissing(s));
    PresentAppend(somes, nones);
    MissingAppend(somes, nones);
    MissingOfSomes(v);
    MissingOfNones(CountMissing(s));
    ExceedancesSpec(|s|);
    forall i, j | 0 <= i < j < |ep.flow| && ep.flow[j].Some?
      ensures ep.flow[i].Some? && ep.flow[i].value >= ep.flow[j].value
    {
      assert j < |v| && ep.flow[j] == Some(v[j]) && ep.flow[i] == Some(v[i]);
    }
  }

  lemma {:induction false} PresentOfSomes(v: seq<real>)
    ensures Present(Somes(v)) == v
  {
    if v != [] {
      PresentOfSomes(v[1..]);
      assert Somes(v)[1..] == Somes(v[1..]);
      assert v == [v[0]] + v[1..];
    }
  }

  lemma {:induction false} PresentOfNones(n: nat)
    ensures Present(Nones(n)) == []
  {
    if n > 0 {
      PresentOfNones(n - 1);
      assert Nones(n)[1..] == Nones(n - 1);
    }
  }

  lemma {:induction false} MissingOfSomes(v: seq<real>)
    ensures CountMissing(Somes(v)) == 0
  {
    if v != [] {
      MissingOfSomes(v[1..]);
      assert Somes(v)[1..] == Somes(v[1..]);
    }
  }

  lemma {:induction false} MissingOfNones(n: nat)
    ensures CountMissing(Nones(n)) == n
  {
    if n > 0 {
      MissingOfNones(n - 1);
      assert Nones(n)[1..] == Nones(n - 1);
    }
  }

  lemma {:induction false} PresentAppend(a: seq<Option<real>>, b: seq<Option<real>>)
    ensures Present(a + b) == Present(a) + Present(b)
  {
    if a != [] {
      PresentAppend(a[1..], b);
      assert (a + b)[1..] == a[1..] + b && (a + b)[0] == a[0];
      var h := if a[0].Some? then [a[0].value] else [];
      assert Present(a + b) == h + Present(a[1..] + b);
      assert Present(a) == h + Present(a[1..]);
      assert h + (Present(a[1..]) + Present(b)) == (h + Present(a[1..])) + Present(b);
    } else {
      assert a + b == b;
    }
  }

  lemma {:induction false} MissingAppend(a: seq<Option<real>>, b: seq<Option<real>>)
    ensures CountMissing(a + b) == CountMissing(a) + CountMissing(b)
  {
    if a != [] {
      MissingAppend(a[1..], b);
      assert (a + b)[1..] == a[1..] + b && (a + b)[0] == a[0];
      assert CountMissing(a + b) == (if a[0].None? then 1 else 0) + CountMissing(a[1..] + b);
    } else {
      assert a + b == b;
    }
  }

  // ---------------------------------------------------------------------
  // numpy's interp with `left` given and `right` left at its default.

  /** `np.interp(x, xp, fp, left)` over increasing sample points: `left`
      below the first point, the last value from the last point on, and in
      between the straight line through the two points around x. */
  function NpInterp(x: real, xp: seq<real>, fp: seq<real>, left: real): real
    requires |xp| == |fp| > 0 && StrictlyAscending(xp)
  {
    if x < xp[0] then left
    else if x >= xp[|xp| - 1] then fp[|fp| - 1]
    else Segment(x, xp, fp, 0)
  }

  /** The segment search: the first j' >= j with x < xp[j' + 1]. */
  function Segment(x: real, xp: seq<real>, fp: seq<real>, j: nat): real
    requires |xp| == |fp| && j + 1 < |xp| && StrictlyAscending(xp)
    requires xp[j] <= x < xp[|xp| - 1]
    decreases |xp| - j
  {
    if x < xp[j + 1] then Lerp(x, xp[j], fp[j], xp[j + 1], fp[j + 1])
    else Segment(x, xp, fp, j + 1)
  }

  /** The segment search stops at the pair of points around x. */
  lemma {:induction false} SegmentFound(x: real, xp: seq<real>, fp: seq<real>, j: nat) returns (k: nat)
    requires |xp| == |fp| && j + 1 < |xp| && StrictlyAscending(xp)
    requires xp[j] <= x < xp[|xp| - 1]
    ensures j <= k && k + 1 < |xp| && xp[k] <= x < xp[k + 1]
    ensures Segment(x, xp, fp, j) == Lerp(x, xp[k], fp[k], xp[k + 1], fp[k + 1])
    decreases |xp| - j
  {
    if x < xp[j + 1] {
      k := j;
    } else {
      k := SegmentFound(x, xp, fp, j + 1);
    }
  }

  /** Below the first point the result is `left`; from the last point on
      it is the last value. */
  lemma NpInterpOutside(x: real, xp: seq<real>, fp: seq<real>, left: real)
    requires |xp| == |fp| > 0 && StrictlyAscending(xp)
    ensures x < xp[0] ==> NpInterp(x, xp, fp, left) == left
    ensures x >= xp[|xp| - 1] ==> NpInterp(x, xp, fp, left) == fp[|fp| - 1]
  {
  }

  /** At one of the table's own points the result is that point's value. */
  lemma NpInterpAtPoint(xp: seq<real>, fp: seq<real>, left: real, k: nat)
    requires |xp| == |fp| > 0 && StrictlyAscending(xp) && k < |xp|
    ensures NpInterp(xp[k], xp, fp, left) == fp[k]
  {
    if k < |xp| - 1 {
      var j := SegmentFound(xp[k], xp, fp, 0);
      SameSegment(xp, xp[k], j, k);
      LerpAtStart(xp[k], fp[k], xp[k + 1], fp[k + 1]);
    }
  }

  /** Strictly between two neighbouring points the result is the straight
      line through them. */
  lemma NpInterpInterior(x: real, xp: seq<real>, fp: seq<real>, left: real, k: nat)
    requires |xp| == |fp| && StrictlyAscending(xp) && k + 1 < |xp| && xp[k] < x < xp[k + 1]
    ensures NpInterp(x, xp, fp, left) == Lerp(x, xp[k], fp[k], xp[k + 1], fp[k + 1])
  {
    assert xp[k + 1] <= xp[|xp| - 1];
    var j := SegmentFound(x, xp, fp, 0);
    SameSegment(xp, x, j, k);
  }

  /** Two segments of an increasing table that both hold x are the same
      segment. */
  lemma SameSegment(xp: seq<real>, x: real, j: nat, k: nat)
    requires StrictlyAscending(xp) && j + 1 < |xp| && k + 1 < |xp|
    requires xp[j] <= x < xp[j + 1] && xp[k] <= x < xp[k + 1]
    ensures j == k
  {
  }

  /** From the first point on the result never leaves the range of the
      values. */
  lemma NpInterpRange(x: real, xp: seq<real>, fp: seq<real>, left: real)
    requires |xp| == |fp| > 0 && StrictlyAscending(xp) && xp[0] <= x
    ensures MinOf(fp) <= NpInterp(x, xp, fp, left) <= MaxOf(fp)
  {
    if x < xp[|xp| - 1] {
      var j := SegmentFound(x, xp, fp, 0);
      LerpBetweenClosed(x, xp[j], fp[j], xp[j + 1], fp[j + 1]);
      assert fp[j] in fp && fp[j + 1] in fp;
    } else {
      assert fp[|fp| - 1] in fp;
    }
  }

  /** y lies between a and b, in either order. */
  predicate Between(y: real, a: real, b: real)
  {
    (a <= b && a <= y <= b) || (b <= a && b <= y <= a)
  }

  lemma LerpBetweenClosed(x: real, x0: real, y0: real, x1: real, y1: real)
    requires x0 <= x < x1
    ensures Between(Lerp(x, x0, y0, x1, y1), y0, y1)
  {
    if x0 < x {
      LerpBetween(x, x0, y0, x1, y1);
    }
  }

  // ---------------------------------------------------------------------
  // summarize_ep in src/flow_functions.py.

  /** A row label of the summary table: "Max", "Min" or an exceedance
      probability. */
  datatype Pct = MaxPct | MinPct | Prob(p: real)

  /** numpy's interp and pandas' idxmin raise on an empty table. */
  datatype EpError = EmptySample

  /** One cell of the summary column; a missing cell is NaN, the maximum or
      minimum of no values. */
  function SummaryCell(ep: EpTable, pct: Pct, decimal: nat): (c: Result<Option<real>, EpError>)
    requires WellFormedEp(ep)
    ensures c.Err? <==> ep.values == [] && pct.Prob?
    ensures c.Ok? ==> (c.value.Some? <==> ep.values != [])
  {
    match pct
    case MaxPct => Ok(if ep.values == [] then None else Some(Round(MaxOf(ep.values), decimal)))
    case MinPct => Ok(if ep.values == [] then None else Some(Round(MinOf(ep.values), decimal)))
    case Prob(p) =>
      if ep.values == [] then Err(EmptySample)
      else Ok(Some(Round(NpInterp(p, ep.exceeded, ep.values, p), decimal)))
  }

  /** The summary column, one cell per label in `pcts` order, filled into a
      column of zeros. */
  method SummarizeEp(ep: EpTable, pcts: seq<Pct>, decimal: nat) returns (r: Result<seq<Option<real>>, EpError>)
    requires WellFormedEp(ep)
    ensures r.Err? <==> ep.values == [] && exists k :: 0 <= k < |pcts| && pcts[k].Prob?
    ensures r.Ok? ==> |r.value| == |pcts|
    ensures r.Ok? ==> forall k :: 0 <= k < |pcts| ==> r.value[k] == SummaryCell(ep, pcts[k], decimal).value
  {
    var table := seq(|pcts|, _ => Some(0.0));
    for k := 0 to |pcts|
      invariant |table| == |pcts|
      invariant forall j :: 0 <= j < k ==>
        SummaryCell(ep, pcts[j], decimal).Ok? && table[j] == SummaryCell(ep, pcts[j], decimal).value
    {
      var cell := SummaryCell(ep, pcts[k], decimal);
      if cell.Err? {
        return Err(cell.error);
      }
      table := table[k := cell.value];
    }
    return Ok(table);
  }

  /** On the table of a month range with data, "Max" and "Min" give the
      rounded largest and smallest value. */
  lemma SummaryExtrema(q: seq<Option<real>>, month: seq<int>, combo: seq<int>, decimal: nat)
    requires |q| == |month| && Present(Selected(q, month, combo)) != []
    ensures WellFormedEp(CalculateEp(q, month, combo))
    ensures var ep := CalculateEp(q, month, combo);
      && SummaryCell(ep, MaxPct, decimal) == Ok(Some(Round(MaxOf(Present(Selected(q, month, combo))), decimal)))
      && SummaryCell(ep, MinPct, decimal) == Ok(Some(Round(MinOf(Present(Selected(q, month, combo))), decimal)))
      && MaxOf(ep.values) == ep.values[0] && MinOf(ep.values) == ep.values[|ep.values| - 1]
  {
    var v := Present(Selected(q, month, combo));
    var ep := CalculateEp(q, month, combo);
    CalculateEpSpec(q, month, combo);
    SameValuesSameExtrema(ep.values, v);
    DescendingEnds(ep.values);
  }

  lemma SameValuesSameExtrema(a: seq<real>, b: seq<real>)
    requires a != [] && multiset(a) == multiset(b)
    ensures b != [] && MaxOf(a) == MaxOf(b) && MinOf(a) == MinOf(b)
  {
    assert |b| == |multiset(b)| == |multiset(a)| == |a|;
    assert forall x :: x in a <==> x in b by {
      forall x ensures x in a <==> x in b {
        assert x in a <==> x in multiset(a);
        assert x in b <==> x in multiset(b);
      }
    }
    var ma, mb := MaxOf(a), MaxOf(b);
    assert ma in b && mb in a;
    var na, nb := MinOf(a), MinOf(b);
    assert na in b && nb in a;
  }

  lemma DescendingEnds(s: seq<real>)
    requires s != [] && Descending(s)
    ensures MaxOf(s) == s[0] && MinOf(s) == s[|s| - 1]
  {
    var mx, mn := MaxOf(s), MinOf(s);
    var i :| 0 <= i < |s| && s[i] == mx;
    var j :| 0 <= j < |s| && s[j] == mn;
    assert s[0] in s && s[|s| - 1] in s;
  }

  /** The shape calculate_ep gives a month range with data: values from
      largest to smallest, exceedance i / (n + 1) at rank i - 1. */
  predicate RankedEp(ep: EpTable)
  {
    && ep.values != []
    && Descending(ep.values)
    && ep.exceeded == Exceedances(|ep.values|)
  }

  lemma CalculateEpRanked(q: seq<Option<real>>, month: seq<int>, combo: seq<int>)
    requires |q| == |month| && Present(Selected(q, month, combo)) != []
    ensures RankedEp(CalculateEp(q, month, combo)) && WellFormedEp(CalculateEp(q, month, combo))
  {
    CalculateEpSpec(q, month, combo);
  }

  /** A probability below 1 / (n + 1) gives p itself rounded (numpy's `left`
      is p); from n / (n + 1) on it gives the smallest value rounded. */
  lemma SummaryProbOutside(ep: EpTable, p: real, decimal: nat)
    requires RankedEp(ep) && WellFormedEp(ep)
    ensures p < Exceedance(0, |ep.values|) ==>
      SummaryCell(ep, Prob(p), decimal) == Ok(Some(Round(p, decimal)))
    ensures p >= Exceedance(|ep.values| - 1, |ep.values|) ==>
      SummaryCell(ep, Prob(p), decimal) == Ok(Some(Round(ep.values[|ep.values| - 1], decimal)))
  {
    NpInterpOutside(p, ep.exceeded, ep.values, p);
  }

  /** At the exceedance probability of rank k the value of rank k is read
      back, rounded. */
  lemma SummaryProbAtRank(ep: EpTable, k: nat, decimal: nat)
    requires RankedEp(ep) && WellFormedEp(ep) && k < |ep.values|
    ensures SummaryCell(ep, Prob(Exceedance(k, |ep.values|)), decimal) == Ok(Some(Round(ep.values[k], decimal)))
  {
    NpInterpAtPoint(ep.exceeded, ep.values, ep.exceeded[k], k);
  }

  /** From 1 / (n + 1) on the result is a value between the smallest and the
      largest, rounded. */
  lemma SummaryProbInside(ep: EpTable, p: real, decimal: nat) returns (v: real)
    requires RankedEp(ep) && WellFormedEp(ep) && Exceedance(0, |ep.values|) <= p
    ensures ep.values[|ep.values| - 1] <= v <= ep.values[0]
    ensures SummaryCell(ep, Prob(p), decimal) == Ok(Some(Round(v, decimal)))
  {
    NpInterpRange(p, ep.exceeded, ep.values, p);
    DescendingEnds(ep.values);
    v := NpInterp(p, ep.exceeded, ep.values, p);
  }

  // ---------------------------------------------------------------------
  // summarize_ep in functions.py: the nearest row.

  /** Position of the first smallest element (pandas `idxmin`). */
  function ArgMinFirst(s: seq<real>): (k: nat)
    requires |s| > 0
    ensures k < |s|
    ensures forall i :: 0 <= i < |s| ==> s[k] <= s[i]
    ensures forall i :: 0 <= i < k ==> s[k] < s[i]
  {
    if |s| == 1 then 0
    else
      var k := ArgMinFirst(s[1..]);
      assert forall i :: 1 <= i < |s| ==> s[i] == s[1..][i - 1];
      if s[0] <= s[1 + k] then 0 else 1 + k
  }

  /** The first row whose exceedance probability is nearest to p. */
  function NearestRow(ex: seq<real>, p: real): (k: nat)
    requires |ex| > 0
    ensures k < |ex|
    ensures forall i :: 0 <= i < |ex| ==> Abs(ex[k] - p) <= Abs(ex[i] - p)
    ensures forall i :: 0 <= i < k ==> Abs(ex[k] - p) < Abs(ex[i] - p)
  {
    var d := seq(|ex|, i requires 0 <= i < |ex| => Abs(ex[i] - p));
    assert forall i :: 0 <= i < |ex| ==> d[i] == Abs(ex[i] - p);
    ArgMinFirst(d)
  }

  /** On increasing exceedances the nearest row to a p at or below the first
      is the first row, at or above the last is the last row, and at a
      row's own exceedance is that row. */
  lemma NearestRowAscending(ex: seq<real>, p: real)
    requires |ex| > 0 && StrictlyAscending(ex)
    ensures p <= ex[0] ==> NearestRow(ex, p) == 0
    ensures p >= ex[|ex| - 1] ==> NearestRow(ex, p) == |ex| - 1
    ensures forall j :: 0 <= j < |ex| && ex[j] == p ==> NearestRow(ex, p) == j
  {
    var k := NearestRow(ex, p);
    forall j | 0 <= j < |ex| && ex[j] == p ensures k == j {
    }
  }

  /** One cell of the legacy summary: the flow of the nearest row rounded to
      whole units (NaN stays NaN). */
  function LegacyCell(ep: LegacyEpTable, p: real): (c: Result<Option<real>, EpError>)
    requires |ep.flow| == |ep.exceeded|
    ensures c.Err? <==> ep.flow == []
  {
    if ep.flow == [] then Err(EmptySample)
    else Ok(RoundedFlow(ep.flow[NearestRow(ep.exceeded, p)]))
  }

  method SummarizeEpLegacy(ep: LegacyEpTable, pcts: seq<real>) returns (r: Result<seq<Option<real>>, EpError>)
    requires |ep.flow| == |ep.exceeded|
    ensures r.Err? <==> ep.flow == [] && pcts != []
    ensures r.Err? ==> r.error == EmptySample
    ensures r.Ok? ==> |r.value| == |pcts|
    ensures r.Ok? ==> forall k :: 0 <= k < |pcts| ==> r.value[k] == LegacyCell(ep, pcts[k]).value
  {
    var z := seq(|pcts|, _ => Some(0.0));
    for k := 0 to |pcts|
      invariant |z| == |pcts|
      invariant k > 0 ==> ep.flow != []
      invariant forall j :: 0 <= j < k ==> LegacyCell(ep, pcts[j]).Ok? && z[j] == LegacyCell(ep, pcts[j]).value
    {
      var cell := LegacyCell(ep, pcts[k]);
      if cell.Err? {
        return Err(cell.error);
      }
      z := z[k := cell.value];
    }
    return Ok(z);
  }

  /** The legacy ranked column: present values from largest to smallest,
      then one missing row per missing day; so its first row is the largest
      value and its last row is missing as soon as one day is. */
  lemma LegacyFlow(q: seq<Option<real>>, month: seq<int>, combo: seq<int>)
    requires |q| == |month| && Selected(q, month, combo) != []
    ensures var s := Selected(q, month, combo);
      var flow := CalculateEpLegacy(q, month, combo).flow;
      && flow[0] == (if Present(s) == [] then None else Some(MaxOf(Present(s))))
      && flow[|s| - 1] == (if CountMissing(s) > 0 then None else Some(MinOf(Present(s))))
    ensures StrictlyAscending(CalculateEpLegacy(q, month, combo).exceeded)
  {
    var s := Selected(q, month, combo);
    var v := SortDesc(Present(s));
    var flow := CalculateEpLegacy(q, month, combo).flow;
    PresentPlusMissing(s);
    ExceedancesSpec(|s|);
    SortDescDescending(Present(s));
    assert flow == Somes(v) + Nones(CountMissing(s));
    if v != [] {
      SortDescPermutes(Present(s));
      SameValuesSameExtrema(v, Present(s));
      DescendingEnds(v);
      assert flow[0] == Some(v[0]);
    } else {
      assert flow[0] == Nones(CountMissing(s))[0];
    }
    if CountMissing(s) > 0 {
      assert flow[|s| - 1] == Nones(CountMissing(s))[CountMissing(s) - 1];
    } else {
      assert flow[|s| - 1] == Some(v[|v| - 1]);
    }
  }

  /** The legacy cell of a row: its flow rounded to whole units. */
  function RoundedFlow(f: Option<real>): Option<real>
  {
    match f
    case None => None
    case Some(v) => Some(Round(v, 0))
  }

  /** In the legacy table a probability at or below 1 / (n + 1) reads the
      rounded largest value (NaN when every selected day is missing). */
  lemma LegacyCellFirst(q: seq<Option<real>>, month: seq<int>, combo: seq<int>, p: real)
    requires |q| == |month| && Selected(q, month, combo) != []
    requires p <= Exceedance(0, |Selected(q, month, combo)|)
    ensures var s := Selected(q, month, combo);
      LegacyCell(CalculateEpLegacy(q, month, combo), p)
        == Ok(if Present(s) == [] then None else Some(Round(MaxOf(Present(s)), 0)))
  {
    var ep := CalculateEpLegacy(q, month, combo);
    LegacyFlow(q, month, combo);
    NearestRowAscending(ep.exceeded, p);
    assert LegacyCell(ep, p) == Ok(RoundedFlow(ep.flow[0]));
  }

  /** In the legacy table a probability at or above n / (n + 1) reads the
      last row: NaN as soon as one selected day is missing, otherwise the
      rounded smallest value. */
  lemma LegacyCellLast(q: seq<Option<real>>, month: seq<int>, combo: seq<int>, p: real)
    requires |q| == |month| && Selected(q, month, combo) != []
    requires p >= Exceedance(|Selected(q, month, combo)| - 1, |Selected(q, month, combo)|)
    ensures var s := Selected(q, month, combo);
      LegacyCell(CalculateEpLegacy(q, month, combo), p)
        == Ok(if CountMissing(s) > 0 then None else Some(Round(MinOf(Present(s)), 0)))
  {
    var n := |Selected(q, month, combo)|;
    var ep := CalculateEpLegacy(q, month, combo);
    LegacyFlow(q, month, combo);
    NearestRowAscending(ep.exceeded, p);
    assert LegacyCell(ep, p) == Ok(RoundedFlow(ep.flow[n - 1]));
  }

  // ---------------------------------------------------------------------
  // The month-range loop of analyze_dur.

  /** A column of the full table: a month-range key and its summary cells. */
  datatype Column = Column(key: string, cells: seq<Option<real>>)

  /** The summary column of a month range with data. */
  function SummaryColumn(ep: EpTable, pcts: seq<Pct>, decimal: nat): (cells: seq<Option<real>>)
    requires WellFormedEp(ep) && ep.values != []
    ensures |cells| == |pcts|
  {
    seq(|pcts|, k requires 0 <= k < |pcts| => SummaryCell(ep, pcts[k], decimal).value)
  }

  /** Whether a month range has at least one present value. */
  predicate HasData(q: seq<Option<real>>, month: seq<int>, combo: seq<int>)
    requires |q| == |month|
  {
    CalculateEp(q, month, combo).values != []
  }

  /** The columns of the full table after the first |combos| ranges. */
  function DurTable(q: seq<Option<real>>, month: seq<int>, combos: seq<Combo>, pcts: seq<Pct>, decimal: nat): seq<Column>
    requires |q| == |month|
  {
    if combos == [] then []
    else
      var c := combos[|combos| - 1];
      var ep := CalculateEp(q, month, c.months);
      CalculateEpSpec(q, month, c.months);
      DurTable(q, month, combos[..|combos| - 1], pcts, decimal)
        + (if ep.values == [] then [] else [Column(c.key, SummaryColumn(ep, pcts, decimal))])
  }

  /** The ranked tables kept for plotting after the first |combos| ranges. */
  function DurCurves(q: seq<Option<real>>, month: seq<int>, combos: seq<Combo>): seq<EpTable>
    requires |q| == |month|
  {
    if combos == [] then []
    else
      var ep := CalculateEp(q, month, combos[|combos| - 1].months);
      DurCurves(q, month, combos[..|combos| - 1]) + (if ep.values == [] then [] else [ep])
  }

  /** For each month range in dictionary order: rank its values, skip it if
      it has none, otherwise keep the ranked table and add its summary
      column under its key. */
  method AnalyzeDur(q: seq<Option<real>>, month: seq<int>, combos: seq<Combo>, pcts: seq<Pct>, decimal: nat)
    returns (fullTable: seq<Column>, durflows: seq<EpTable>)
    requires |q| == |month|
    requires KeysDistinct(combos)
    ensures fullTable == DurTable(q, month, combos, pcts, decimal)
    ensures durflows == DurCurves(q, month, combos)
  {
    fullTable, durflows := [], [];
    for b := 0 to |combos|
      invariant fullTable == DurTable(q, month, combos[..b], pcts, decimal)
      invariant durflows == DurCurves(q, month, combos[..b])
    {
      DurStep(q, month, combos, b, pcts, decimal);
      var combo := combos[b].months;
      var durEp := CalculateEp(q, month, combo);
      if durEp.values == [] {
        continue;
      }
      durflows := durflows + [durEp];
      CalculateEpSpec(q, month, combo);
      var table := SummarizeEp(durEp, pcts, decimal);
      assert table.value == SummaryColumn(durEp, pcts, decimal);
      fullTable := fullTable + [Column(combos[b].key, table.value)];
    }
    assert combos[..|combos|] == combos;
  }

  lemma DurStep(q: seq<Option<real>>, month: seq<int>, combos: seq<Combo>, b: nat, pcts: seq<Pct>, decimal: nat)
    requires |q| == |month| && b < |combos|
    ensures var ep := CalculateEp(q, month, combos[b].months);
      WellFormedEp(ep) &&
      DurCurves(q, month, combos[..b + 1]) == DurCurves(q, month, combos[..b]) + (if ep.values == [] then [] else [ep]) &&
      DurTable(q, month, combos[..b + 1], pcts, decimal) == DurTable(q, month, combos[..b], pcts, decimal)
        + (if ep.values == [] then [] else [Column(combos[b].key, SummaryColumn(ep, pcts, decimal))])
  {
    CalculateEpSpec(q, month, combos[b].months);
    assert combos[..b + 1][..b] == combos[..b];
  }

  /** col is the column the month range c contributes: c has data, and col
      carries c's key and c's summary. */
  predicate ColumnOf(q: seq<Option<real>>, month: seq<int>, c: Combo, col: Column, pcts: seq<Pct>, decimal: nat)
    requires |q| == |month|
  {
    var ep := CalculateEp(q, month, c.months);
    ep.values != [] && col.key == c.key && col.cells == SummaryColumn(ep, pcts, decimal)
  }

  /** The last range adds at most one column, and the one it adds is its
      own. */
  lemma DurTableLast(q: seq<Option<real>>, month: seq<int>, combos: seq<Combo>, pcts: seq<Pct>, decimal: nat)
    requires |q| == |month| && combos != []
    ensures var n := |combos| - 1;
      forall col :: col in DurTable(q, month, combos, pcts, decimal) ==>
        col in DurTable(q, month, combos[..n], pcts, decimal) || ColumnOf(q, month, combos[n], col, pcts, decimal)
  {
    CalculateEpSpec(q, month, combos[|combos| - 1].months);
  }

  /** Columns already in the table stay when a range is added. */
  lemma DurTableGrows(q: seq<Option<real>>, month: seq<int>, combos: seq<Combo>, pcts: seq<Pct>, decimal: nat, col: Column)
    requires |q| == |month| && combos != []
    requires col in DurTable(q, month, combos[..|combos| - 1], pcts, decimal)
    ensures col in DurTable(q, month, combos, pcts, decimal)
  {
    CalculateEpSpec(q, month, combos[|combos| - 1].months);
  }

  /** The last range, when it has data, gets its column. */
  lemma DurTableNew(q: seq<Option<real>>, month: seq<int>, combos: seq<Combo>, pcts: seq<Pct>, decimal: nat)
    requires |q| == |month| && combos != [] && HasData(q, month, combos[|combos| - 1].months)
    ensures Covered(q, month, DurTable(q, month, combos, pcts, decimal), combos[|combos| - 1], pcts, decimal)
  {
    CalculateEpSpec(q, month, combos[|combos| - 1].months);
    var t := DurTable(q, month, combos, pcts, decimal);
    assert ColumnOf(q, month, combos[|combos| - 1], t[|t| - 1], pcts, decimal);
  }

  /** Every column comes from a range with data, under that range's key,
      and holds that range's summary. */
  lemma {:induction false} DurTableSources(q: seq<Option<real>>, month: seq<int>, combos: seq<Combo>, pcts: seq<Pct>, decimal: nat)
    requires |q| == |month|
    ensures forall col :: col in DurTable(q, month, combos, pcts, decimal) ==>
      exists i :: 0 <= i < |combos| && ColumnOf(q, month, combos[i], col, pcts, decimal)
  {
    if combos != [] {
      var n := |combos| - 1;
      var init := combos[..n];
      DurTableSources(q, month, init, pcts, decimal);
      DurTableLast(q, month, combos, pcts, decimal);
      forall col | col in DurTable(q, month, combos, pcts, decimal)
        ensures exists i :: 0 <= i < |combos| && ColumnOf(q, month, combos[i], col, pcts, decimal)
      {
        if col in DurTable(q, month, init, pcts, decimal) {
          var i :| 0 <= i < |init| && ColumnOf(q, month, init[i], col, pcts, decimal);
          assert combos[i] == init[i];
        } else {
          assert ColumnOf(q, month, combos[n], col, pcts, decimal);
        }
      }
    }
  }

  /** Some column of t is the one the range c contributes. */
  predicate Covered(q: seq<Option<real>>, month: seq<int>, t: seq<Column>, c: Combo, pcts: seq<Pct>, decimal: nat)
    requires |q| == |month|
  {
    exists col :: col in t && ColumnOf(q, month, c, col, pcts, decimal)
  }

  /** Every range with data has a column under its key. */
  lemma {:induction false} DurTableCovers(q: seq<Option<real>>, month: seq<int>, combos: seq<Combo>, pcts: seq<Pct>, decimal: nat)
    requires |q| == |month|
    ensures forall i :: 0 <= i < |combos| && HasData(q, month, combos[i].months) ==>
      Covered(q, month, DurTable(q, month, combos, pcts, decimal), combos[i], pcts, decimal)
  {
    if combos != [] {
      var n := |combos| - 1;
      var init := combos[..n];
      var t := DurTable(q, month, combos, pcts, decimal);
      DurTableCovers(q, month, init, pcts, decimal);
      forall i | 0 <= i < |combos| && HasData(q, month, combos[i].months)
        ensures Covered(q, month, t, combos[i], pcts, decimal)
      {
        if i < n {
          assert init[i] == combos[i];
          var col :| col in DurTable(q, month, init, pcts, decimal) && ColumnOf(q, month, init[i], col, pcts, decimal);
          DurTableGrows(q, month, combos, pcts, decimal, col);
        } else {
          DurTableNew(q, month, combos, pcts, decimal);
        }
      }
    }
  }

  /** With distinct keys, a range gets a column exactly when it has data, and
      the column under its key holds its summary. */
  lemma DurTableColumns(q: seq<Option<real>>, month: seq<int>, combos: seq<Combo>, pcts: seq<Pct>, decimal: nat, i: nat)
    requires |q| == |month| && KeysDistinct(combos) && i < |combos|
    ensures (exists col :: col in DurTable(q, month, combos, pcts, decimal) && col.key == combos[i].key)
      <==> HasData(q, month, combos[i].months)
    ensures forall col :: col in DurTable(q, month, combos, pcts, decimal) && col.key == combos[i].key ==>
      col.cells == SummaryColumn(CalculateEp(q, month, combos[i].months), pcts, decimal)
  {
    var t := DurTable(q, month, combos, pcts, decimal);
    DurTableSources(q, month, combos, pcts, decimal);
    DurTableCovers(q, month, combos, pcts, decimal);
    forall col | col in t && col.key == combos[i].key
      ensures ColumnOf(q, month, combos[i], col, pcts, decimal)
    {
      var j :| 0 <= j < |combos| && ColumnOf(q, month, combos[j], col, pcts, decimal);
      assert i == j;
    }
    if HasData(q, month, combos[i].months) {
      assert Covered(q, month, t, combos[i], pcts, decimal);
      var col :| col in t && ColumnOf(q, month, combos[i], col, pcts, decimal);
      assert col.key == combos[i].key;
    }
  }

  // ---------------------------------------------------------------------
  // The month-range loop of analyze_dur in functions.py.

  /** The legacy summary column of a month range. */
  function LegacyColumn(ep: LegacyEpTable, pcts: seq<real>): (cells: seq<Option<real>>)
    requires |ep.flow| == |ep.exceeded| && (ep.flow != [] || pcts == [])
    ensures |cells| == |pcts|
  {
    seq(|pcts|, k requires 0 <= k < |pcts| => LegacyCell(ep, pcts[k]).value)
  }

  lemma LegacyColumnOfCells(ep: LegacyEpTable, pcts: seq<real>, cells: seq<Option<real>>)
    requires |ep.flow| == |ep.exceeded| && (ep.flow != [] || pcts == []) && |cells| == |pcts|
    requires forall k :: 0 <= k < |pcts| ==> cells[k] == LegacyCell(ep, pcts[k]).value
    ensures cells == LegacyColumn(ep, pcts)
  {
  }

  /** The legacy full table after the first |combos| ranges: one column
      per range, or the error of the first range with no days at all. */
  function LegacyTable(q: seq<Option<real>>, month: seq<int>, combos: seq<Combo>, pcts: seq<real>): (r: Result<seq<Column>, EpError>)
    requires |q| == |month|
    ensures r.Ok? ==> |r.value| == |combos|
  {
    if combos == [] then Ok([])
    else
      match LegacyTable(q, month, combos[..|combos| - 1], pcts)
      case Err(e) => Err(e)
      case Ok(t) =>
        var c := combos[|combos| - 1];
        var ep := CalculateEpLegacy(q, month, c.months);
        if ep.flow == [] && pcts != [] then Err(EmptySample)
        else Ok(t + [Column(c.key, LegacyColumn(ep, pcts))])
  }

  /** Every month range gets a column, in dictionary order; a range with no
      days at all makes idxmin fail and ends the analysis with an error. */
  method AnalyzeDurLegacy(q: seq<Option<real>>, month: seq<int>, combos: seq<Combo>, pcts: seq<real>)
    returns (r: Result<seq<Column>, EpError>)
    requires |q| == |month|
    ensures r == LegacyTable(q, month, combos, pcts)
  {
    var fullTable := [];
    for b := 0 to |combos|
      invariant LegacyTable(q, month, combos[..b], pcts) == Ok(fullTable)
    {
      assert combos[..b + 1][..b] == combos[..b];
      var durflows := CalculateEpLegacy(q, month, combos[b].months);
      var table := SummarizeEpLegacy(durflows, pcts);
      if table.Err? {
        assert LegacyTable(q, month, combos[..b + 1], pcts) == Err(table.error);
        LegacyErrPersists(q, month, combos, pcts, b + 1, |combos|);
        assert combos[..|combos|] == combos;
        return Err(table.error);
      }
      LegacyColumnOfCells(durflows, pcts, table.value);
      fullTable := fullTable + [Column(combos[b].key, table.value)];
    }
    assert combos[..|combos|] == combos;
    return Ok(fullTable);
  }

  /** Once a range fails, the legacy analysis stays failed. */
  lemma {:induction false} LegacyErrPersists(q: seq<Option<real>>, month: seq<int>, combos: seq<Combo>, pcts: seq<real>, i: nat, n: nat)
    requires |q| == |month| && i <= n <= |combos| && LegacyTable(q, month, combos[..i], pcts).Err?
    ensures LegacyTable(q, month, combos[..n], pcts) == LegacyTable(q, month, combos[..i], pcts)
    decreases n - i
  {
    if i < n {
      LegacyErrPersists(q, month, combos, pcts, i, n - 1);
      assert combos[..n][..n - 1] == combos[..n - 1];
    }
  }

  /** Every month range selects at least one day. */
  predicate EveryRangeHasDays(q: seq<Option<real>>, month: seq<int>, combos: seq<Combo>)
    requires |q| == |month|
  {
    forall i :: 0 <= i < |combos| ==> Selected(q, month, combos[i].months) != []
  }

  /** The legacy analysis succeeds exactly when no percentile is asked for
      or every range has at least one day. */
  lemma {:induction false} LegacyTableOk(q: seq<Option<real>>, month: seq<int>, combos: seq<Combo>, pcts: seq<real>)
    requires |q| == |month|
    ensures LegacyTable(q, month, combos, pcts).Ok? <==> pcts == [] || EveryRangeHasDays(q, month, combos)
  {
    if combos != [] {
      var n := |combos| - 1;
      var init := combos[..n];
      LegacyTableOk(q, month, init, pcts);
      forall i | 0 <= i < n
        ensures combos[i] == init[i]
      {
      }
      assert EveryRangeHasDays(q, month, combos)
        <==> EveryRangeHasDays(q, month, init) && Selected(q, month, combos[n].months) != [];
    }
  }

  /** When it succeeds, column i of the legacy table is range i's legacy
      summary under its key. */
  lemma {:induction false} LegacyTableColumns(q: seq<Option<real>>, month: seq<int>, combos: seq<Combo>, pcts: seq<real>)
    requires |q| == |month| && (pcts == [] || EveryRangeHasDays(q, month, combos))
    ensures LegacyTable(q, month, combos, pcts).Ok?
    ensures forall i :: 0 <= i < |combos| ==>
      LegacyTable(q, month, combos, pcts).value[i]
        == Column(combos[i].key, LegacyColumn(CalculateEpLegacy(q, month, combos[i].months), pcts))
  {
    LegacyTableOk(q, month, combos, pcts);
    forall i | 0 <= i < |combos|
      ensures LegacyTable(q, month, combos, pcts).value[i]
        == Column(combos[i].key, LegacyColumn(CalculateEpLegacy(q, month, combos[i].months), pcts))
    {
      LegacyTableColumn(q, month, combos, pcts, i);
    }
  }

  lemma {:induction false} LegacyTableColumn(q: seq<Option<real>>, month: seq<int>, combos: seq<Combo>, pcts: seq<real>, i: nat)
    requires |q| == |month| && i < |combos| && LegacyTable(q, month, combos, pcts).Ok?
    requires pcts == [] || Selected(q, month, combos[i].months) != []
    ensures LegacyTable(q, month, combos, pcts).value[i]
      == Column(combos[i].key, LegacyColumn(CalculateEpLegacy(q, month, combos[i].months), pcts))
  {
    var n := |combos| - 1;
    var init := combos[..n];
    var t := LegacyTable(q, month, init, pcts).value;
    if i < n {
      assert combos[i] == init[i];
      LegacyTableColumn(q, month, init, pcts, i);
    }
  }
}
