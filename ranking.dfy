/** Ranking values from largest to smallest, as `sort_values(ascending=False)`
    does before exceedance probabilities and plotting positions are
    assigned. The sort is given by insertion; any descending rearrangement
    of the same values is the same sequence, so the result does not depend
    on the sorting algorithm pandas picks. */
module Ranking {

  predicate Descending(s: seq<real>)
  {
    forall i, j :: 0 <= i < j < |s| ==> s[i] >= s[j]
  }

  /** Insert x before the first element it is not smaller than. */
  function Insert(x: real, s: seq<real>): (r: seq<real>)
    ensures |r| == |s| + 1
  {
    if s == [] || x >= s[0] then [x] + s
    else [s[0]] + Insert(x, s[1..])
  }

  /** The values of s from largest to smallest. */
  function SortDesc(s: seq<real>): (r: seq<real>)
    ensures |r| == |s|
  {
    if s == [] then []
    else Insert(s[0], SortDesc(s[1..]))
  }

  /** Insert adds x and keeps every other value. */
  lemma {:induction false} InsertPermutes(x: real, s: seq<real>)
    ensures multiset(Insert(x, s)) == multiset(s) + multiset{x}
  {
    if s != [] && x < s[0] {
      InsertPermutes(x, s[1..]);
      assert s == [s[0]] + s[1..];
    }
  }

  /** SortDesc rearranges s: same values, same multiplicities. */
  lemma {:induction false} SortDescPermutes(s: seq<real>)
    ensures multiset(SortDesc(s)) == multiset(s)
  {
    if s != [] {
      SortDescPermutes(s[1..]);
      InsertPermutes(s[0], SortDesc(s[1..]));
      assert s == [s[0]] + s[1..];
    }
  }

  lemma {:induction false} InsertKeepsDescending(x: real, s: seq<real>)
    requires Descending(s)
    ensures Descending(Insert(x, s))
  {
    if s != [] && x < s[0] {
      var rest := Insert(x, s[1..]);
      InsertKeepsDescending(x, s[1..]);
      InsertBounded(x, s[1..], s[0]);
      var r := [s[0]] + rest;
      forall i, j | 0 <= i < j < |r| ensures r[i] >= r[j] {
        assert r[j] == rest[j - 1];
        if i > 0 {
          assert r[i] == rest[i - 1];
        }
      }
    }
  }

  /** Inserting values no larger than b keeps every element at most b. */
  lemma InsertBounded(x: real, s: seq<real>, b: real)
    requires x <= b && forall i :: 0 <= i < |s| ==> s[i] <= b
    ensures forall i :: 0 <= i < |Insert(x, s)| ==> Insert(x, s)[i] <= b
  {
    var r := Insert(x, s);
    InsertPermutes(x, s);
    forall i | 0 <= i < |r| ensures r[i] <= b {
      assert r[i] in multiset(r);
      if r[i] != x {
        assert r[i] in multiset(s);
      }
    }
  }

  /** SortDesc puts the values in descending order. */
  lemma {:induction false} SortDescDescending(s: seq<real>)
    ensures Descending(SortDesc(s))
  {
    if s != [] {
      SortDescDescending(s[1..]);
      InsertKeepsDescending(s[0], SortDesc(s[1..]));
    }
  }

  /** Two descending sequences holding the same values are equal: the
      descending order of a collection of values is unique. */
  lemma {:induction false} DescendingUnique(a: seq<real>, b: seq<real>)
    requires Descending(a) && Descending(b) && multiset(a) == multiset(b)
    ensures a == b
  {
    if a != [] {
      SameHead(a, b);
      TailDescending(a);
      TailDescending(b);
      DescendingUnique(a[1..], b[1..]);
      assert a == [a[0]] + a[1..];
      assert b == [b[0]] + b[1..];
    } else {
      assert |b| == |multiset(b)|;
    }
  }

  /** Two nonempty descending sequences with the same values start with the
      same, largest, value and hold the same values after it. */
  lemma SameHead(a: seq<real>, b: seq<real>)
    requires a != [] && Descending(a) && Descending(b) && multiset(a) == multiset(b)
    ensures b != [] && a[0] == b[0] && multiset(a[1..]) == multiset(b[1..])
  {
    assert a[0] in multiset(b);
    assert b != [];
    HeadIsLargest(a, b[0]);
    HeadIsLargest(b, a[0]);
    SplitHead(a);
    SplitHead(b);
    assert a[0] == b[0];
    assert multiset(a[1..]) == multiset(a) - multiset{a[0]};
    assert multiset(b[1..]) == multiset(b) - multiset{b[0]};
  }

  lemma HeadIsLargest(a: seq<real>, x: real)
    requires Descending(a) && x in multiset(a)
    ensures x <= a[0]
  {
    var i :| 0 <= i < |a| && a[i] == x;
  }

  lemma SplitHead(a: seq<real>)
    requires a != []
    ensures multiset(a) == multiset{a[0]} + multiset(a[1..])
  {
    assert a == [a[0]] + a[1..];
  }

  lemma TailDescending(a: seq<real>)
    requires a != [] && Descending(a)
    ensures Descending(a[1..])
  {
  }

  /** Any descending rearrangement of s is SortDesc(s). */
  lemma SortDescUnique(s: seq<real>, t: seq<real>)
    requires Descending(t) && multiset(t) == multiset(s)
    ensures t == SortDesc(s)
  {
    SortDescDescending(s);
    SortDescPermutes(s);
    DescendingUnique(t, SortDesc(s));
  }
}
