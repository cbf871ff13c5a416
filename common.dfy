/** Shared vocabulary of the duration analyses: optional values for missing
    days, results for operations that fail, the cfs-day to acre-feet factor,
    decimal rounding, and sums and extrema over daily values. */
module Common {

  /** A daily value that may be missing (NaN in the data frames). */
  datatype Option<T> = None | Some(value: T)

  /** An operation that either produces a value or fails with an error. */
  datatype Result<T, E> = Ok(value: T) | Err(error: E)

  /** A flow in cubic feet per second held for a day, in acre-feet: 86400 s
      per day over 43560 square feet per acre. */
  function AcreFeet(cfsDays: real): real
  {
    cfsDays * 86400.0 / 43560.0
  }

  /** A volume in acre-feet as the flow in cfs that carries it in one day. */
  function CfsDays(acreFeet: real): real
  {
    acreFeet * 43560.0 / 86400.0
  }

  /** The nearest integer, ties to the even neighbour. */
  function RoundHalfEven(x: real): (n: int)
    ensures -0.5 <= n as real - x <= 0.5
    ensures (n as real - x == 0.5 || x - n as real == 0.5) ==> n % 2 == 0
  {
    var f := x.Floor;
    var frac := x - f as real;
    if frac < 0.5 then f
    else if frac > 0.5 then f + 1
    else if f % 2 == 0 then f else f + 1
  }

  /** Rounding to `d` decimal places with ties to the even neighbour, as
      Python's `round` and numpy's `round` do (scale by ten `d` times, round
      to an integer, scale back), taken on exact reals. */
  function Round(x: real, d: nat): (r: real)
    ensures x >= 0.0 ==> r >= 0.0
    decreases d
  {
    if d == 0 then RoundHalfEven(x) as real else Round(x * 10.0, d - 1) / 10.0
  }

  /** Sum of a sequence of reals (an empty sum is 0). */
  function Sum(s: seq<real>): real
  {
    if s == [] then 0.0 else s[0] + Sum(s[1..])
  }

  lemma {:induction false} SumAppend(a: seq<real>, b: seq<real>)
    ensures Sum(a + b) == Sum(a) + Sum(b)
  {
    if a == [] {
      assert a + b == b;
    } else {
      assert (a + b)[1..] == a[1..] + b;
      SumAppend(a[1..], b);
    }
  }

  /** The present values of a daily sequence, in order (pandas `dropna`). */
  function Present(s: seq<Option<real>>): (r: seq<real>)
    ensures |r| <= |s|
  {
    if s == [] then []
    else (if s[0].Some? then [s[0].value] else []) + Present(s[1..])
  }

  /** The present values are exactly the values of the days that are present. */
  lemma {:induction false} PresentMembers(s: seq<Option<real>>)
    ensures forall i :: 0 <= i < |s| && s[i].Some? ==> s[i].value in Present(s)
    ensures forall v :: v in Present(s) ==> exists i :: 0 <= i < |s| && s[i] == Some(v)
  {
    if s != [] {
      PresentMembers(s[1..]);
      forall v | v in Present(s) ensures exists i :: 0 <= i < |s| && s[i] == Some(v) {
        if s[0].Some? && v == s[0].value {
          assert s[0] == Some(v);
        } else {
          assert v in Present(s[1..]);
          var i :| 0 <= i < |s[1..]| && s[1..][i] == Some(v);
          assert s[i + 1] == Some(v);
        }
      }
      forall i | 0 <= i < |s| && s[i].Some? ensures s[i].value in Present(s) {
        if i > 0 {
          assert s[1..][i - 1] == s[i];
        }
      }
    }
  }

  predicate AllPresent(s: seq<Option<real>>)
  {
    forall i :: 0 <= i < |s| ==> s[i].Some?
  }

  /** Sum of the present values (pandas `sum`, which skips missing days). */
  function SumPresent(s: seq<Option<real>>): real
  {
    if s == [] then 0.0 else (if s[0].Some? then s[0].value else 0.0) + SumPresent(s[1..])
  }

  /** Number of missing days. */
  function CountMissing(s: seq<Option<real>>): (n: nat)
    ensures n <= |s|
  {
    if s == [] then 0 else (if s[0].None? then 1 else 0) + CountMissing(s[1..])
  }

  /** Every day is either present or missing. */
  lemma {:induction false} PresentPlusMissing(s: seq<Option<real>>)
    ensures |Present(s)| + CountMissing(s) == |s|
  {
    if s != [] {
      PresentPlusMissing(s[1..]);
    }
  }

  function MaxOf(s: seq<real>): (m: real)
    requires |s| > 0
    ensures m in s
    ensures forall x :: x in s ==> x <= m
  {
    if |s| == 1 then s[0]
    else
      var rest := MaxOf(s[1..]);
      assert forall x :: x in s ==> x == s[0] || x in s[1..];
      if s[0] >= rest then s[0] else rest
  }

  function MinOf(s: seq<real>): (m: real)
    requires |s| > 0
    ensures m in s
    ensures forall x :: x in s ==> m <= x
  {
    if |s| == 1 then s[0]
    else
      var rest := MinOf(s[1..]);
      assert forall x :: x in s ==> x == s[0] || x in s[1..];
      if s[0] <= rest then s[0] else rest
  }

  /** A mean over n days times n gives back the total. */
  lemma MeanTimesCount(total: real, n: nat)
    requires n >= 1
    ensures (total / n as real) * (n as real) == total
  {
  }

  function Abs(x: real): (r: real)
    ensures r >= 0.0 && (r == x || r == -x)
  {
    if x < 0.0 then -x else x
  }
}
