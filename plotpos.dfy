/** Plotting positions of ranked peaks: missing peaks dropped, the rest
    ranked from largest to smallest, and rank i (0-based) among n given the
    position (i + 1 - alpha) / (n + 1 - 2 alpha). */
module PlotPositions {
  import opened Common
  import opened Interpolation
  import opened Ranking
  import opened FlowDur

  /** Ranked peaks and their plotting positions; a position is missing when
      n + 1 - 2 alpha is zero (pandas gives inf or NaN there). */
  datatype PpTable = PpTable(values: seq<real>, pp: seq<Option<real>>)

  function PlottingPosition(i: nat, n: nat, alpha: real): Option<real>
  {
    var den := (n + 1) as real - 2.0 * alpha;
    if den == 0.0 then None else Some(((i + 1) as real - alpha) / den)
  }

  function CalcPp(peaks: seq<Option<real>>, alpha: real): (t: PpTable)
    ensures |t.values| == |t.pp| == |Present(peaks)|
  {
    var v := SortDesc(Present(peaks));
    PpTable(v, seq(|v|, i requires 0 <= i < |v| => PlottingPosition(i, |v|, alpha)))
  }

  /** The table holds exactly the present peaks, from largest to smallest. */
  lemma CalcPpRanked(peaks: seq<Option<real>>, alpha: real)
    ensures Descending(CalcPp(peaks, alpha).values)
    ensures multiset(CalcPp(peaks, alpha).values) == multiset(Present(peaks))
  {
    SortDescDescending(Present(peaks));
    SortDescPermutes(Present(peaks));
  }

  /** With n + 1 - 2 alpha > 0 every position is present and they rise
      strictly with rank. */
  lemma CalcPpIncreasing(peaks: seq<Option<real>>, alpha: real)
    requires (|Present(peaks)| + 1) as real - 2.0 * alpha > 0.0
    ensures var t := CalcPp(peaks, alpha);
      forall i, j :: 0 <= i < j < |t.pp| ==> t.pp[i].Some? && t.pp[j].Some? && t.pp[i].value < t.pp[j].value
  {
    var t := CalcPp(peaks, alpha);
    var n := |t.values|;
    forall i, j | 0 <= i < j < |t.pp| ensures t.pp[i].Some? && t.pp[j].Some? && t.pp[i].value < t.pp[j].value {
      DivLess((i + 1) as real - alpha, (j + 1) as real - alpha, (n + 1) as real - 2.0 * alpha);
    }
  }

  /** For alpha < 1 (alpha = 0 included) every position lies strictly
      between 0 and 1. */
  lemma CalcPpInUnit(peaks: seq<Option<real>>, alpha: real)
    requires alpha < 1.0
    ensures var t := CalcPp(peaks, alpha);
      forall i :: 0 <= i < |t.pp| ==> t.pp[i].Some? && 0.0 < t.pp[i].value < 1.0
  {
    var t := CalcPp(peaks, alpha);
    var n := |t.values|;
    forall i | 0 <= i < |t.pp| ensures t.pp[i].Some? && 0.0 < t.pp[i].value < 1.0 {
      FractionInUnit((i + 1) as real - alpha, (n + 1) as real - 2.0 * alpha);
    }
  }

  /** With alpha = 0 the plotting positions are the exceedance probabilities
      of the flow-duration table, and both rank the same values. */
  lemma CalcPpWeibull(q: seq<Option<real>>, month: seq<int>, combo: seq<int>)
    requires |q| == |month|
    ensures var t := CalcPp(Selected(q, month, combo), 0.0);
      var ep := CalculateEp(q, month, combo);
      && t.values == ep.values
      && |t.pp| == |ep.exceeded|
      && forall i :: 0 <= i < |t.pp| ==> t.pp[i] == Some(ep.exceeded[i])
  {
  }
}
