/** Table look-up with clamping: the value of `knownys` at `x`, read off the
    piecewise-linear curve through (knownxs, knownys). A known x returns its y
    exactly; an x outside the known range returns the y at the nearest end;
    otherwise the two bracketing points are interpolated and rounded. */
module Interpolation {
  import opened Common

  /** How a look-up fails where numpy raises. */
  datatype InterpError =
    | LengthMismatch  // a boolean mask of the xs does not fit the ys
    | NoKnownValues   // the minimum of an empty array
    | NotSingle       // `.item()` on a selection that is not exactly one value
    | OutOfRange      // an index past the end of the arrays
    | ZeroDivision    // two bracketing xs that are equal

  /** The ys whose x equals `v`, in order (`knownys[knownxs == v]`). */
  function Matches(xs: seq<real>, ys: seq<real>, v: real): (ms: seq<real>)
    requires |xs| == |ys|
    ensures |ms| <= |xs|
  {
    if xs == [] then []
    else (if xs[0] == v then [ys[0]] else []) + Matches(xs[1..], ys[1..], v)
  }

  /** The y of the one known x equal to `v`: the mask must fit and select
      exactly one value. */
  function PickAt(xs: seq<real>, ys: seq<real>, v: real): (r: Result<real, InterpError>)
    ensures r.Ok? ==> |xs| == |ys| && |Matches(xs, ys, v)| == 1 && r.value == Matches(xs, ys, v)[0]
  {
    if |xs| != |ys| then Err(LengthMismatch)
    else
      var ms := Matches(xs, ys, v);
      if |ms| == 1 then Ok(ms[0]) else Err(NotSingle)
  }

  /** The offsets xs[i] - x that are negative, in order (`relxs[relxs < 0]`). */
  function Below(xs: seq<real>, x: real): (rel: seq<real>)
    ensures |rel| <= |xs|
    ensures forall v :: v in rel ==> v < 0.0
  {
    if xs == [] then []
    else (if xs[0] - x < 0.0 then [xs[0] - x] else []) + Below(xs[1..], x)
  }

  /** numpy `argmax`: the first index of the largest value. */
  function ArgMaxFirst(s: seq<real>): (j: nat)
    requires |s| > 0
    ensures j < |s|
    ensures forall i :: 0 <= i < |s| ==> s[i] <= s[j]
    ensures forall i :: 0 <= i < j ==> s[i] < s[j]
  {
    if |s| == 1 then 0
    else
      var k := ArgMaxFirst(s[1..]);
      if s[0] >= s[k + 1] then 0 else k + 1
  }

  /** The look-up as written: the index found among the negative offsets is
      used on the unfiltered arrays, and only the interpolated branch rounds
      to `d` decimals. */
  function Interp(x: real, xs: seq<real>, ys: seq<real>, d: nat): (r: Result<real, InterpError>)
    ensures x in xs && r.Ok? ==> |xs| == |ys| && Matches(xs, ys, x) == [r.value]
  {
    if x in xs then PickAt(xs, ys, x)
    else if |xs| == 0 then Err(NoKnownValues)
    else if x < MinOf(xs) then PickAt(xs, ys, MinOf(xs))
    else if x > MaxOf(xs) then PickAt(xs, ys, MaxOf(xs))
    else
      var rel := Below(xs, x);
      if |rel| == 0 then Err(OutOfRange)
      else
        var lo := ArgMaxFirst(rel);
        var hi := lo + 1;
        if hi >= |xs| || hi >= |ys| then Err(OutOfRange)
        else if xs[hi] - xs[lo] == 0.0 then Err(ZeroDivision)
        else Ok(Round(Lerp(x, xs[lo], ys[lo], xs[hi], ys[hi]), d))
  }

  /** The straight line through (x0, y0) and (x1, y1) at x, in the order
      the source evaluates it. */
  function Lerp(x: real, x0: real, y0: real, x1: real, y1: real): real
    requires x1 - x0 != 0.0
  {
    y0 + (x - x0) * (y1 - y0) / (x1 - x0)
  }

  /** The line through (x0, y0) passes through (x0, y0). */
  lemma LerpAtStart(x0: real, y0: real, x1: real, y1: real)
    requires x1 - x0 != 0.0
    ensures Lerp(x0, x0, y0, x1, y1) == y0
  {
    assert (x0 - x0) * (y1 - y0) == 0.0;
  }

  predicate StrictlyAscending(xs: seq<real>)
  {
    forall i, j :: 0 <= i < j < |xs| ==> xs[i] < xs[j]
  }

  // ---------------------------------------------------------------------
  // Behaviour on an ascending table.

  lemma {:induction false} MatchesAscending(xs: seq<real>, ys: seq<real>, k: nat)
    requires |xs| == |ys| && StrictlyAscending(xs) && k < |xs|
    ensures Matches(xs, ys, xs[k]) == [ys[k]]
  {
    if k == 0 {
      NoMatch(xs[1..], ys[1..], xs[0]);
    } else {
      MatchesAscending(xs[1..], ys[1..], k - 1);
    }
  }

  lemma {:induction false} NoMatch(xs: seq<real>, ys: seq<real>, v: real)
    requires |xs| == |ys| && forall i :: 0 <= i < |xs| ==> xs[i] != v
    ensures Matches(xs, ys, v) == []
  {
    if xs != [] {
      NoMatch(xs[1..], ys[1..], v);
    }
  }

  lemma AscendingEnds(xs: seq<real>)
    requires |xs| > 0 && StrictlyAscending(xs)
    ensures MinOf(xs) == xs[0] && MaxOf(xs) == xs[|xs| - 1]
  {
    var lo := MinOf(xs);
    var hi := MaxOf(xs);
    assert xs[0] in xs && xs[|xs| - 1] in xs;
    assert forall v :: v in xs ==> xs[0] <= v <= xs[|xs| - 1] by {
      forall v | v in xs ensures xs[0] <= v <= xs[|xs| - 1] {
        var i :| 0 <= i < |xs| && xs[i] == v;
      }
    }
  }

  /** A known x returns its own y, unrounded. */
  lemma InterpExact(xs: seq<real>, ys: seq<real>, d: nat, k: nat)
    requires |xs| == |ys| && StrictlyAscending(xs) && k < |xs|
    ensures Interp(xs[k], xs, ys, d) == Ok(ys[k])
  {
    MatchesAscending(xs, ys, k);
  }

  /** Below the smallest known x the y at the smallest x is returned, and
      above the largest the y at the largest: there is no extrapolation. */
  lemma InterpClamps(x: real, xs: seq<real>, ys: seq<real>, d: nat)
    requires |xs| == |ys| && |xs| > 0 && StrictlyAscending(xs)
    ensures x < xs[0] ==> Interp(x, xs, ys, d) == Ok(ys[0])
    ensures x > xs[|xs| - 1] ==> Interp(x, xs, ys, d) == Ok(ys[|ys| - 1])
  {
    AscendingEnds(xs);
    MatchesAscending(xs, ys, 0);
    MatchesAscending(xs, ys, |xs| - 1);
    if x < xs[0] || x > xs[|xs| - 1] {
      forall i | 0 <= i < |xs| ensures xs[i] != x {
        assert xs[0] <= xs[i] <= xs[|xs| - 1] by {
          assert MinOf(xs) <= xs[i] <= MaxOf(xs) by {
            assert xs[i] in xs;
          }
        }
      }
    }
  }

  /** On an ascending table the negative offsets are those of the first
      k + 1 points when x lies strictly between xs[k] and xs[k + 1]. */
  lemma {:induction false} BelowPrefix(xs: seq<real>, x: real, k: nat)
    requires StrictlyAscending(xs) && k + 1 < |xs| && xs[k] < x < xs[k + 1]
    ensures |Below(xs, x)| == k + 1
    ensures forall i :: 0 <= i <= k ==> Below(xs, x)[i] == xs[i] - x
  {
    if k == 0 {
      NoneBelow(xs[1..], x);
    } else {
      BelowPrefix(xs[1..], x, k - 1);
    }
  }

  lemma {:induction false} NoneBelow(xs: seq<real>, x: real)
    requires forall i :: 0 <= i < |xs| ==> xs[i] > x
    ensures Below(xs, x) == []
  {
    if xs != [] {
      NoneBelow(xs[1..], x);
    }
  }

  /** Strictly increasing values have their first maximum at the end. */
  lemma ArgMaxOfIncreasing(s: seq<real>)
    requires |s| > 0 && forall i, j :: 0 <= i < j < |s| ==> s[i] < s[j]
    ensures ArgMaxFirst(s) == |s| - 1
  {
    var j := ArgMaxFirst(s);
    assert s[|s| - 1] <= s[j];
  }

  /** Strictly between two neighbouring known points, the result is the
      rounded straight line through them. */
  lemma InterpInterior(x: real, xs: seq<real>, ys: seq<real>, d: nat, k: nat)
    requires |xs| == |ys| && StrictlyAscending(xs) && k + 1 < |xs| && xs[k] < x < xs[k + 1]
    ensures Interp(x, xs, ys, d) == Ok(Round(Lerp(x, xs[k], ys[k], xs[k + 1], ys[k + 1]), d))
  {
    AscendingEnds(xs);
    forall i | 0 <= i < |xs| ensures xs[i] != x {
      if i < k {
        assert xs[i] < xs[k];
      } else if k + 1 < i {
        assert xs[k + 1] < xs[i];
      }
    }
    assert xs[0] <= xs[k] && xs[k + 1] <= xs[|xs| - 1];
    var rel := Below(xs, x);
    BelowPrefix(xs, x, k);
    ArgMaxOfIncreasing(rel);
  }

  /** The straight line between two points with x inside their span stays
      between their ys. */
  lemma LerpBetween(x: real, x0: real, y0: real, x1: real, y1: real)
    requires x0 < x < x1
    ensures var v := Lerp(x, x0, y0, x1, y1);
      (y0 <= y1 ==> y0 <= v <= y1) && (y1 <= y0 ==> y1 <= v <= y0)
  {
    var a, b, c := x - x0, x1 - x0, y1 - y0;
    var t := a / b;
    FractionInUnit(a, b);
    MulDivSwap(a, c, b);
    assert a * c / b == t * c;
    assert Lerp(x, x0, y0, x1, y1) == y0 + t * c;
    if y0 <= y1 {
      PartLe(t, c);
    }
    if y1 <= y0 {
      PartLe(t, -c);
      assert t * c == -(t * -c);
    }
  }

  /** 0 < a < b gives 0 < a / b < 1. */
  lemma FractionInUnit(a: real, b: real)
    requires 0.0 < a < b
    ensures 0.0 < a / b < 1.0
  {
    assert a / b > 0.0;
    assert (b - a) / b > 0.0;
    assert b / b == 1.0;
    assert (b - a) / b == b / b - a / b;
  }

  lemma MulDivSwap(a: real, c: real, b: real)
    requires b != 0.0
    ensures a * c / b == (a / b) * c
  {
  }

  /** A fraction in [0, 1] of a non-negative amount lies between 0 and it. */
  lemma PartLe(t: real, c: real)
    requires 0.0 <= t <= 1.0 && c >= 0.0
    ensures 0.0 <= t * c <= c
  {
    assert c - t * c == (1.0 - t) * c;
  }

  /** Any x other than a known one has a bracketing pair or lies outside. */
  lemma {:induction false} Bracket(xs: seq<real>, x: real)
    requires |xs| > 0 && StrictlyAscending(xs) && xs[0] < x < xs[|xs| - 1] && x !in xs
    ensures exists k :: 0 <= k && k + 1 < |xs| && xs[k] < x < xs[k + 1]
  {
    if x < xs[1] {
      assert xs[0] < x < xs[0 + 1];
    } else {
      assert x != xs[1];
      Bracket(xs[1..], x);
      var k :| 0 <= k && k + 1 < |xs[1..]| && xs[1..][k] < x < xs[1..][k + 1];
      assert xs[k + 1] < x < xs[k + 2];
    }
  }

  /** A look-up strictly inside the table's range succeeds. */
  lemma InterpInsideTotal(x: real, xs: seq<real>, ys: seq<real>, d: nat)
    requires |xs| == |ys| && |xs| > 0 && StrictlyAscending(xs)
    requires xs[0] < x < xs[|xs| - 1] && x !in xs
    ensures Interp(x, xs, ys, d).Ok?
  {
    Bracket(xs, x);
    var k :| 0 <= k && k + 1 < |xs| && xs[k] < x < xs[k + 1];
    InterpInterior(x, xs, ys, d, k);
  }

  /** On a strictly ascending table with one y per x, every look-up succeeds. */
  lemma InterpTotal(x: real, xs: seq<real>, ys: seq<real>, d: nat)
    requires |xs| == |ys| && |xs| > 0 && StrictlyAscending(xs)
    ensures Interp(x, xs, ys, d).Ok?
  {
    if x in xs {
      var k :| 0 <= k < |xs| && xs[k] == x;
      InterpExact(xs, ys, d, k);
    } else if x < xs[0] || x > xs[|xs| - 1] {
      InterpClamps(x, xs, ys, d);
    } else {
      assert x != xs[0] && x != xs[|xs| - 1];
      InterpInsideTotal(x, xs, ys, d);
    }
  }
}
