/** Month names and the water-year month axis: the three-letter names the
    flow-duration keys are built from, and the bar positions of the monthly
    plot, where a water year runs from October (position 1) to September
    (position 12). */
module Months {

  /** Three-letter month names, January first. */
  const MonthNames: seq<string> :=
    ["Jan", "Feb", "Mar", "Apr", "May", "Jun", "Jul", "Aug", "Sep", "Oct", "Nov", "Dec"]

  /** Tick labels of the monthly plot under the water-year division. */
  const WyMonthNames: seq<string> :=
    ["Oct", "Nov", "Dec", "Jan", "Feb", "Mar", "Apr", "May", "Jun", "Jul", "Aug", "Sep"]

  predicate IsMonth(m: int)
  {
    1 <= m <= 12
  }

  /** The name of calendar month m (1 = January). */
  function MonthName(m: int): (s: string)
    requires IsMonth(m)
    ensures |s| == 3
  {
    MonthNames[m - 1]
  }

  /** The month a three-letter name stands for, if any. */
  function MonthOfName(s: string): (m: int)
    ensures m == 0 || IsMonth(m)
  {
    if s == "Jan" then 1 else if s == "Feb" then 2 else if s == "Mar" then 3
    else if s == "Apr" then 4 else if s == "May" then 5 else if s == "Jun" then 6
    else if s == "Jul" then 7 else if s == "Aug" then 8 else if s == "Sep" then 9
    else if s == "Oct" then 10 else if s == "Nov" then 11 else if s == "Dec" then 12
    else 0
  }

  /** Reading a month's name back gives the month. */
  lemma MonthNameRoundTrip(m: int)
    requires IsMonth(m)
    ensures MonthOfName(MonthName(m)) == m
  {
    assert MonthName(m)[0] == MonthNames[m - 1][0];
  }

  /** Different months have different names. */
  lemma MonthNameInjective(a: int, b: int)
    requires IsMonth(a) && IsMonth(b) && MonthName(a) == MonthName(b)
    ensures a == b
  {
    MonthNameRoundTrip(a);
    MonthNameRoundTrip(b);
  }

  /** Bar position of calendar month m on the water-year axis. */
  function WyPosition(m: int): (k: int)
    requires IsMonth(m)
    ensures IsMonth(k)
  {
    if m >= 10 then m - 9 else m + 3
  }

  /** The calendar month at water-year position k. */
  function WyMonth(k: int): (m: int)
    requires IsMonth(k)
    ensures IsMonth(m)
    ensures WyPosition(m) == k
  {
    if k <= 3 then k + 9 else k - 3
  }

  /** The water-year axis is a bijection on the months: October comes
      first, September last, and each position holds exactly one month. */
  lemma WyPositionBijective()
    ensures WyPosition(10) == 1 && WyPosition(9) == 12
    ensures forall m :: IsMonth(m) ==> WyMonth(WyPosition(m)) == m
    ensures forall a, b :: IsMonth(a) && IsMonth(b) && WyPosition(a) == WyPosition(b) ==> a == b
    ensures forall k :: IsMonth(k) ==> exists m :: IsMonth(m) && WyPosition(m) == k
  {
    forall a, b | IsMonth(a) && IsMonth(b) && WyPosition(a) == WyPosition(b) ensures a == b {
      assert WyMonth(WyPosition(a)) == a && WyMonth(WyPosition(b)) == b;
    }
    forall k | IsMonth(k) ensures exists m :: IsMonth(m) && WyPosition(m) == k {
      assert WyPosition(WyMonth(k)) == k;
    }
  }

  /** The tick label at each water-year position names the month drawn
      there. */
  lemma WyTicksNameMonths(m: int)
    requires IsMonth(m)
    ensures WyMonthNames[WyPosition(m) - 1] == MonthName(m)
  {
  }
}
