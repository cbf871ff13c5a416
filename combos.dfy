/** The `allcombos` table of month ranges used by the flow-duration
    analysis: one entry for every range of calendar months m..n with
    1 <= m <= n <= 12, keyed by a title such as "01-03.Jan-Mar", built by
    two nested loops that update a dictionary. */
module Combos {
  import opened Months

  /** One dictionary entry: a title and the months it covers. */
  datatype Combo = Combo(key: string, months: seq<int>)

  /** The decimal digit d as a character. */
  function Digit(d: int): (c: char)
    requires 0 <= d <= 9
    ensures '0' <= c <= '9'
  {
    ('0' as int + d) as char
  }

  /** A month number as Python's `str` writes it. */
  function Numeral(m: int): (s: string)
    requires IsMonth(m)
    ensures |s| == if m < 10 then 1 else 2
  {
    if m < 10 then [Digit(m)] else ['1', Digit(m - 10)]
  }

  /** The key of the range m..n, in the three forms the source builds: both
      numbers zero-padded when n < 10, only m padded when m < 10 <= n, and
      for m >= 10 the number of m alone. The month names at the end tell
      the ranges apart in every form. */
  function ComboTitle(m: int, n: int): (t: string)
    requires IsMonth(m) && IsMonth(n) && m <= n
  {
    TitleNumbers(m, n) + "." + MonthName(m) + "-" + MonthName(n)
  }

  function TitleNumbers(m: int, n: int): string
    requires IsMonth(m) && IsMonth(n) && m <= n
  {
    if n < 10 then "0" + Numeral(m) + "-" + "0" + Numeral(n)
    else if m < 10 then "0" + Numeral(m) + "-" + Numeral(n)
    else Numeral(m)
  }

  /** The three forms of the title, written out as the loop writes them. */
  lemma TitleForms(m: int, n: int)
    requires IsMonth(m) && IsMonth(n) && m <= n
    ensures n < 10 ==>
      ComboTitle(m, n) == "0" + Numeral(m) + "-" + "0" + Numeral(n) + "." + MonthName(m) + "-" + MonthName(n)
    ensures m < 10 <= n ==>
      ComboTitle(m, n) == "0" + Numeral(m) + "-" + Numeral(n) + "." + MonthName(m) + "-" + MonthName(n)
    ensures 10 <= m ==>
      ComboTitle(m, n) == Numeral(m) + "." + MonthName(m) + "-" + MonthName(n)
  {
  }

  /** Every title ends in the names of its first and last months. */
  lemma TitleEndsInNames(m: int, n: int)
    requires IsMonth(m) && IsMonth(n) && m <= n
    ensures var t := ComboTitle(m, n); |t| > 7 && t[|t| - 7..] == MonthName(m) + "-" + MonthName(n)
  {
    var numbers, names := TitleNumbers(m, n), MonthName(m) + "-" + MonthName(n);
    assert ComboTitle(m, n) == numbers + "." + names;
    assert (numbers + "." + names)[|numbers| + 1..] == names;
  }

  /** Different ranges have different titles. */
  lemma ComboTitleInjective(a: int, b: int, c: int, d: int)
    requires IsMonth(a) && IsMonth(b) && a <= b
    requires IsMonth(c) && IsMonth(d) && c <= d
    requires ComboTitle(a, b) == ComboTitle(c, d)
    ensures a == c && b == d
  {
    TitleEndsInNames(a, b);
    TitleEndsInNames(c, d);
    var t := ComboTitle(a, b);
    var s := t[|t| - 7..];
    assert s[..3] == MonthName(a) && s[..3] == MonthName(c);
    assert s[4..] == MonthName(b) && s[4..] == MonthName(d);
    MonthNameInjective(a, c);
    MonthNameInjective(b, d);
  }

  /** The months m..n, one after another. */
  function MonthRange(m: int, n: int): (r: seq<int>)
    requires m <= n
    ensures |r| == n - m + 1
    ensures forall i :: 0 <= i < |r| ==> r[i] == m + i
  {
    if m == n then [m] else seq(n - m + 1, i => m + i)
  }

  /** `dict.update` with one entry: a key already present keeps its
      position and takes the new value, a new key goes at the end. */
  function Update(d: seq<Combo>, c: Combo): (r: seq<Combo>)
    ensures c in r
    ensures forall e :: e in d && e.key != c.key ==> e in r
    ensures forall e :: e in r ==> e == c || e in d
  {
    if d == [] then [c]
    else if d[0].key == c.key then [c] + d[1..]
    else [d[0]] + Update(d[1..], c)
  }

  lemma {:induction false} UpdateNewKey(d: seq<Combo>, c: Combo)
    requires forall e :: e in d ==> e.key != c.key
    ensures Update(d, c) == d + [c]
  {
    if d != [] {
      UpdateNewKey(d[1..], c);
      assert d == [d[0]] + d[1..];
    }
  }

  /** The entry for the range m..n. */
  function Entry(m: int, n: int): Combo
    requires IsMonth(m) && IsMonth(n) && m <= n
  {
    Combo(ComboTitle(m, n), MonthRange(m, n))
  }

  /** The entries the inner loop adds for first month m before it reaches
      last month n, in loop order. */
  function RowUpTo(m: int, n: int): (r: seq<Combo>)
    requires IsMonth(m) && m <= n <= 13
    ensures |r| == n - m
    decreases n
  {
    if n == m then [] else RowUpTo(m, n - 1) + [Entry(m, n - 1)]
  }

  /** The table after the outer loop has run for first months 1..m. */
  function Table(m: int): (r: seq<Combo>)
    requires 0 <= m <= 12
  {
    if m == 0 then [] else Table(m - 1) + RowUpTo(m, 13)
  }

  /** The table as the nested loops build it. */
  method AllCombos() returns (combos: seq<Combo>)
    ensures combos == Table(12)
  {
    combos := [];
    for m := 1 to 13
      invariant combos == Table(m - 1)
    {
      combos := AddRow(combos, m);
    }
  }

  /** The inner loop: the combinations starting in month m, in order. */
  method AddRow(table: seq<Combo>, m: int) returns (combos: seq<Combo>)
    requires IsMonth(m) && table == Table(m - 1)
    ensures combos == Table(m)
  {
    combos := table;
    for n := m to 13
      invariant combos == Table(m - 1) + RowUpTo(m, n)
    {
      var title := Title(m, n);
      var vals := if m == n then [m] else MonthRange(m, n);
      assert Combo(title, vals) == Entry(m, n);
      AppendEntry(combos, m, n);
      combos := Update(combos, Combo(title, vals));
    }
  }

  /** The title as the inner loop builds it, in one of three forms. */
  method Title(m: int, n: int) returns (title: string)
    requires IsMonth(m) && IsMonth(n) && m <= n
    ensures title == ComboTitle(m, n)
  {
    TitleForms(m, n);
    if n < 10 {
      title := "0" + Numeral(m) + "-" + "0" + Numeral(n) + "." + MonthName(m) + "-" + MonthName(n);
    } else if m < 10 {
      title := "0" + Numeral(m) + "-" + Numeral(n) + "." + MonthName(m) + "-" + MonthName(n);
    } else {
      title := Numeral(m) + "." + MonthName(m) + "-" + MonthName(n);
    }
  }

  /** One pass of the inner loop appends the entry of m..n: its key is new. */
  lemma AppendEntry(combos: seq<Combo>, m: int, n: int)
    requires IsMonth(m) && IsMonth(n) && m <= n
    requires combos == Table(m - 1) + RowUpTo(m, n)
    ensures Update(combos, Entry(m, n)) == Table(m - 1) + RowUpTo(m, n + 1)
  {
    var c := Entry(m, n);
    NextKeyIsNew(m, n);
    assert c.key == ComboTitle(m, n);
    UpdateNewKey(combos, c);
    assert RowUpTo(m, n + 1) == RowUpTo(m, n) + [c];
    SnocAssoc(Table(m - 1), RowUpTo(m, n), c);
  }

  lemma SnocAssoc(t: seq<Combo>, r: seq<Combo>, c: Combo)
    ensures t + (r + [c]) == (t + r) + [c]
  {
  }

  /** An entry that covers a range of months and carries that range's
      title. */
  predicate WellKeyed(c: Combo)
  {
    |c.months| >= 1
    && IsMonth(First(c)) && IsMonth(Last(c)) && First(c) <= Last(c)
    && c == Entry(First(c), Last(c))
  }

  function First(c: Combo): int
    requires |c.months| >= 1
  {
    c.months[0]
  }

  function Last(c: Combo): int
    requires |c.months| >= 1
  {
    c.months[|c.months| - 1]
  }

  lemma EntryWellKeyed(m: int, n: int)
    requires IsMonth(m) && IsMonth(n) && m <= n
    ensures WellKeyed(Entry(m, n)) && First(Entry(m, n)) == m && Last(Entry(m, n)) == n
  {
    var r := MonthRange(m, n);
    assert r[0] == m && r[n - m] == n;
  }

  lemma {:induction false} RowWellKeyed(m: int, n: int)
    requires IsMonth(m) && m <= n <= 13
    ensures forall c :: c in RowUpTo(m, n) ==> WellKeyed(c) && First(c) == m && Last(c) < n
    decreases n
  {
    if n > m {
      RowWellKeyed(m, n - 1);
      EntryWellKeyed(m, n - 1);
    }
  }

  lemma {:induction false} TableWellKeyed(m: int)
    requires 0 <= m <= 12
    ensures forall c :: c in Table(m) ==> WellKeyed(c) && First(c) <= m
  {
    if m > 0 {
      TableWellKeyed(m - 1);
      RowWellKeyed(m, 13);
    }
  }

  /** The key of the range m..n is not yet in the table when the loops reach
      it. */
  lemma NextKeyIsNew(m: int, n: int)
    requires IsMonth(m) && IsMonth(n) && m <= n
    ensures forall e :: e in Table(m - 1) + RowUpTo(m, n) ==> e.key != ComboTitle(m, n)
  {
    TableWellKeyed(m - 1);
    RowWellKeyed(m, n);
    forall e | e in Table(m - 1) + RowUpTo(m, n) ensures e.key != ComboTitle(m, n) {
      if e.key == ComboTitle(m, n) {
        ComboTitleInjective(First(e), Last(e), m, n);
      }
    }
  }

  predicate KeysDistinct(d: seq<Combo>)
  {
    forall i, j :: 0 <= i < j < |d| ==> d[i].key != d[j].key
  }

  lemma DistinctSnoc(t: seq<Combo>, r: seq<Combo>, c: Combo)
    requires KeysDistinct(t + r) && forall e :: e in t + r ==> e.key != c.key
    ensures KeysDistinct(t + (r + [c]))
  {
    var d := t + r;
    assert t + (r + [c]) == d + [c];
    forall i, j | 0 <= i < j < |d + [c]| ensures (d + [c])[i].key != (d + [c])[j].key {
      assert (d + [c])[i] == d[i];
      if j == |d| {
        assert d[i] in d;
      }
    }
  }

  /** Every table the loops pass through has pairwise different keys. */
  lemma {:induction false} PrefixKeysDistinct(m: int, n: int)
    requires IsMonth(m) && m <= n <= 13
    ensures KeysDistinct(Table(m - 1) + RowUpTo(m, n))
    decreases m, n, 1
  {
    if n > m {
      PrefixStep(m, n);
    } else if m > 1 {
      PrefixKeysDistinct(m - 1, 13);
      RowBoundary(m);
    } else {
      assert Table(m - 1) + RowUpTo(m, n) == [];
    }
  }

  /** Starting month m continues where month m - 1 left off. */
  lemma RowBoundary(m: int)
    requires 1 < m <= 12
    ensures Table(m - 1) + RowUpTo(m, m) == Table(m - 2) + RowUpTo(m - 1, 13)
  {
    assert RowUpTo(m, m) == [];
    assert Table(m - 1) == Table(m - 2) + RowUpTo(m - 1, 13);
  }

  lemma {:induction false} PrefixStep(m: int, n: int)
    requires IsMonth(m) && m < n <= 13
    ensures KeysDistinct(Table(m - 1) + RowUpTo(m, n))
    decreases m, n, 0
  {
    var t, r, c := Table(m - 1), RowUpTo(m, n - 1), Entry(m, n - 1);
    PrefixKeysDistinct(m, n - 1);
    NextKeyIsNew(m, n - 1);
    assert c.key == ComboTitle(m, n - 1);
    DistinctSnoc(t, r, c);
    assert RowUpTo(m, n) == r + [c];
  }

  /** The finished table has 78 entries with pairwise different keys; every
      entry is a contiguous month range with its own title, and every range
      1 <= a <= b <= 12 has its entry. */
  lemma AllCombosTable()
    ensures |Table(12)| == 78
    ensures KeysDistinct(Table(12))
    ensures forall c :: c in Table(12) ==> WellKeyed(c)
    ensures forall a, b :: IsMonth(a) && IsMonth(b) && a <= b ==> Entry(a, b) in Table(12)
  {
    assert |Table(12)| == 78;
    PrefixKeysDistinct(12, 13);
    assert Table(11) + RowUpTo(12, 13) == Table(12);
    TableWellKeyed(12);
    forall a, b | IsMonth(a) && IsMonth(b) && a <= b ensures Entry(a, b) in Table(12) {
      EntryInRow(a, b, 13);
      RowInTable(a, 12);
    }
  }

  lemma {:induction false} EntryInRow(m: int, n: int, k: int)
    requires IsMonth(m) && IsMonth(n) && m <= n < k <= 13
    ensures Entry(m, n) in RowUpTo(m, k)
    decreases k
  {
    if n < k - 1 {
      EntryInRow(m, n, k - 1);
    }
  }

  lemma {:induction false} RowInTable(a: int, m: int)
    requires IsMonth(a) && a <= m <= 12
    ensures forall c :: c in RowUpTo(a, 13) ==> c in Table(m)
  {
    assert Table(m) == Table(m - 1) + RowUpTo(m, 13);
    if a < m {
      RowInTable(a, m - 1);
    }
  }
}
