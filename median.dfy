/** `Series.median()` over the numbers of a column (missing cells already
    skipped): the middle value of the sorted numbers, or the mean of the two
    middle values when their count is even; no value for no numbers. */
module Median {
  import opened Results

  predicate Sorted(s: seq<real>) {
    forall i, j :: 0 <= i < j < |s| ==> s[i] <= s[j]
  }

  function Insert(x: real, s: seq<real>): (r: seq<real>)
    ensures |r| == |s| + 1
    ensures multiset(r) == multiset(s) + multiset{x}
  {
    if s == [] || x <= s[0] then [x] + s
    else
      assert s == [s[0]] + s[1..];
      [s[0]] + Insert(x, s[1..])
  }

  /** A bound below `x` and every element of `s` is below every element of
      the insertion. */
  lemma InsertLowerBound(x: real, s: seq<real>, lo: real)
    requires lo <= x && forall k :: 0 <= k < |s| ==> lo <= s[k]
    ensures forall k :: 0 <= k < |Insert(x, s)| ==> lo <= Insert(x, s)[k]
  {
  }

  lemma {:induction false} InsertSorted(x: real, s: seq<real>)
    requires Sorted(s)
    ensures Sorted(Insert(x, s))
  {
    if s != [] && x > s[0] {
      InsertSorted(x, s[1..]);
      InsertLowerBound(x, s[1..], s[0]);
    }
  }

  /** Insertion sort: a sorted permutation of `xs`. */
  function Sort(xs: seq<real>): (r: seq<real>)
    ensures |r| == |xs|
    ensures Sorted(r)
    ensures multiset(r) == multiset(xs)
  {
    if xs == [] then []
    else
      assert xs == [xs[0]] + xs[1..];
      InsertSorted(xs[0], Sort(xs[1..]));
      Insert(xs[0], Sort(xs[1..]))
  }

  function Median(xs: seq<real>): (m: Option<real>)
    ensures m.None? <==> xs == []
  {
    if xs == [] then None else Some(Middle(Sort(xs)))
  }

  /** The middle of a sorted, non-empty sequence: the middle element, or the
      mean of the two middle elements when the length is even. */
  function Middle(s: seq<real>): (m: real)
    requires s != []
    ensures Sorted(s) ==> s[0] <= m <= s[|s| - 1]
    ensures |s| % 2 == 1 ==> m in s
  {
    var n := |s|;
    if n % 2 == 1 then s[n / 2] else (s[n / 2 - 1] + s[n / 2]) / 2.0
  }

  /** How many of `xs` are at most `m`. */
  function CountAtMost(xs: seq<real>, m: real): nat {
    if xs == [] then 0 else (if xs[0] <= m then 1 else 0) + CountAtMost(xs[1..], m)
  }

  /** How many of `xs` are at least `m`. */
  function CountAtLeast(xs: seq<real>, m: real): nat {
    if xs == [] then 0 else (if xs[0] >= m then 1 else 0) + CountAtLeast(xs[1..], m)
  }

  lemma {:induction false} InsertCounts(x: real, s: seq<real>, m: real)
    ensures CountAtMost(Insert(x, s), m) == CountAtMost(s, m) + (if x <= m then 1 else 0)
    ensures CountAtLeast(Insert(x, s), m) == CountAtLeast(s, m) + (if x >= m then 1 else 0)
  {
    if s == [] || x <= s[0] {
      assert ([x] + s)[1..] == s;
    } else {
      InsertCounts(x, s[1..], m);
      assert ([s[0]] + Insert(x, s[1..]))[1..] == Insert(x, s[1..]);
    }
  }

  /** Sorting does not change how many values lie on either side of `m`. */
  lemma {:induction false} SortCounts(xs: seq<real>, m: real)
    ensures CountAtMost(Sort(xs), m) == CountAtMost(xs, m)
    ensures CountAtLeast(Sort(xs), m) == CountAtLeast(xs, m)
  {
    if xs != [] {
      SortCounts(xs[1..], m);
      InsertCounts(xs[0], Sort(xs[1..]), m);
    }
  }

  /** In a sorted sequence, `s[k] <= m` puts the first k + 1 values at or below `m`. */
  lemma {:induction false} SortedAtMost(s: seq<real>, k: nat, m: real)
    requires Sorted(s) && k < |s| && s[k] <= m
    ensures CountAtMost(s, m) >= k + 1
  {
    if k > 0 {
      SortedAtMost(s[1..], k - 1, m);
    }
  }

  /** In a sorted sequence, `s[k] >= m` puts the last |s| - k values at or above `m`. */
  lemma {:induction false} SortedAtLeast(s: seq<real>, k: nat, m: real)
    requires Sorted(s) && k < |s| && s[k] >= m
    ensures CountAtLeast(s, m) >= |s| - k
  {
    if k > 0 {
      SortedAtLeast(s[1..], k - 1, m);
    } else if |s| > 1 {
      SortedAtLeast(s[1..], 0, m);
    }
  }

  /** The median splits the values in halves: at least half of them lie at
      or below it and at least half at or above it; with an odd count it is
      one of the values. */
  lemma MiddleSplits(s: seq<real>)
    requires Sorted(s) && s != []
    ensures 2 * CountAtMost(s, Middle(s)) >= |s|
    ensures 2 * CountAtLeast(s, Middle(s)) >= |s|
  {
    var n := |s|;
    var m := Middle(s);
    if n % 2 == 1 {
      SortedAtMost(s, n / 2, m);
      SortedAtLeast(s, n / 2, m);
    } else {
      assert s[n / 2 - 1] <= m <= s[n / 2];
      SortedAtMost(s, n / 2 - 1, m);
      SortedAtLeast(s, n / 2, m);
    }
  }

  lemma MedianSplits(xs: seq<real>)
    requires xs != []
    ensures 2 * CountAtMost(xs, Median(xs).value) >= |xs|
    ensures 2 * CountAtLeast(xs, Median(xs).value) >= |xs|
    ensures |xs| % 2 == 1 ==> Median(xs).value in xs
  {
    var s := Sort(xs);
    var m := Middle(s);
    SortCounts(xs, m);
    MiddleSplits(s);
    if |s| % 2 == 1 {
      assert m in multiset(s);
    }
  }

  /** Removing the head removes one copy of it from the multiset. */
  lemma TailMultiset(a: seq<real>)
    requires a != []
    ensures multiset(a[1..]) == multiset(a) - multiset{a[0]}
  {
    assert a == [a[0]] + a[1..];
  }

  /** Two sorted arrangements of the same values start with the same one. */
  lemma SortedSameHead(a: seq<real>, b: seq<real>)
    requires Sorted(a) && Sorted(b) && multiset(a) == multiset(b) && a != [] && b != []
    ensures a[0] == b[0]
  {
    assert a[0] in multiset(b);
    var i :| 0 <= i < |b| && b[i] == a[0];
    assert b[0] in multiset(a);
    var j :| 0 <= j < |a| && a[j] == b[0];
  }

  /** Two sorted sequences with the same elements are equal. */
  lemma {:induction false} SortedUnique(a: seq<real>, b: seq<real>)
    requires Sorted(a) && Sorted(b) && multiset(a) == multiset(b)
    ensures a == b
  {
    assert |a| == |multiset(a)| == |multiset(b)| == |b|;
    if a != [] {
      SortedSameHead(a, b);
      TailMultiset(a);
      TailMultiset(b);
      SortedUnique(a[1..], b[1..]);
      assert a == [a[0]] + a[1..] && b == [b[0]] + b[1..];
    }
  }

  /** The median depends on the values only, not on the order of the rows
      that hold them. */
  lemma MedianPermutation(xs: seq<real>, ys: seq<real>)
    requires multiset(xs) == multiset(ys)
    ensures Median(xs) == Median(ys)
  {
    SortedUnique(Sort(xs), Sort(ys));
    assert |xs| == |multiset(xs)| == |multiset(ys)| == |ys|;
  }
}
