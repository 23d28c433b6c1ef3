/** `DataFrame.drop_duplicates()` with its defaults: whole-row comparison
    (a missing cell equals a missing cell) and `keep='first'`. */
module Dedup {

  /** The positions below `n` that satisfy `p`, in ascending order. */
  function Where(n: nat, p: nat -> bool): (r: seq<nat>)
    ensures forall k :: 0 <= k < |r| ==> r[k] < n && p(r[k])
    ensures forall i :: 0 <= i < n && p(i) ==> i in r
    ensures forall a, b :: 0 <= a < b < |r| ==> r[a] < r[b]
  {
    if n == 0 then []
    else Where(n - 1, p) + (if p(n - 1) then [n - 1] else [])
  }

  /** The elements of `s` at positions `ps`, in the order of `ps`. */
  function Pick<T>(s: seq<T>, ps: seq<nat>): seq<T>
    requires forall k :: 0 <= k < |ps| ==> ps[k] < |s|
  {
    seq(|ps|, k requires 0 <= k < |ps| => s[ps[k]])
  }

  /** Position `i` holds the first occurrence of its value. */
  predicate IsFirst<T(==)>(s: seq<T>, i: nat) {
    i < |s| && s[i] !in s[..i]
  }

  /** The positions `drop_duplicates` keeps: exactly the first occurrences, ascending. */
  function Survivors<T(==)>(s: seq<T>): (keep: seq<nat>)
    ensures forall k :: 0 <= k < |keep| ==> keep[k] < |s| && s[keep[k]] !in s[..keep[k]]
    ensures forall i :: 0 <= i < |s| && s[i] !in s[..i] ==> i in keep
    ensures forall a, b :: 0 <= a < b < |keep| ==> keep[a] < keep[b]
  {
    Where(|s|, (i: nat) => IsFirst(s, i))
  }

  /** `drop_duplicates()` on a sequence: something is kept exactly when
      there is something, and the first element always is. */
  function DropDuplicates<T(==)>(s: seq<T>): (r: seq<T>)
    ensures r == [] <==> s == []
    ensures s != [] ==> r[0] == s[0]
  {
    var keep := Survivors(s);
    if s == [] then []
    else
      assert IsFirst(s, 0);
      assert 0 in keep && forall a :: 0 < a < |keep| ==> keep[0] < keep[a];
      Pick(s, keep)
  }

  predicate Distinct<T(==)>(s: seq<T>) {
    forall a, b :: 0 <= a < b < |s| ==> s[a] != s[b]
  }

  /** No two kept elements are equal. */
  lemma DropDuplicatesDistinct<T>(s: seq<T>)
    ensures Distinct(DropDuplicates(s))
  {
  }

  /** Every value of `s` has a first occurrence. */
  lemma FirstOccurrence<T>(s: seq<T>, x: T) returns (f: nat)
    requires x in s
    ensures f < |s| && s[f] == x && x !in s[..f]
  {
    f := 0;
    while s[f] != x
      invariant f < |s| && x !in s[..f] && x in s[f..]
      decreases |s| - f
    {
      assert s[f..] == [s[f]] + s[f + 1..];
      f := f + 1;
    }
  }

  /** Dropping duplicates loses no value and invents none. */
  lemma DropDuplicatesSameValues<T>(s: seq<T>)
    ensures forall x :: x in DropDuplicates(s) <==> x in s
  {
    var keep := Survivors(s);
    var r := DropDuplicates(s);
    forall x | x in s
      ensures x in r
    {
      var f := FirstOccurrence(s, x);
      var k :| 0 <= k < |keep| && keep[k] == f;
      assert r[k] == x;
    }
  }

  lemma {:induction false} DistinctCardinality<T>(s: seq<T>)
    requires Distinct(s)
    ensures |set x | x in s| == |s|
  {
    if s != [] {
      var n := |s| - 1;
      var init := s[..n];
      assert Distinct(init);
      DistinctCardinality(init);
      assert s == init + [s[n]];
      assert (set x | x in s) == (set x | x in init) + {s[n]};
      assert s[n] !in (set x | x in init);
    }
  }

  /** As many rows are kept as there are distinct rows. */
  lemma DropDuplicatesCount<T>(s: seq<T>)
    ensures |DropDuplicates(s)| == |set x | x in s|
  {
    var r := DropDuplicates(s);
    DropDuplicatesDistinct(s);
    DropDuplicatesSameValues(s);
    DistinctCardinality(r);
    assert (set x | x in r) == (set x | x in s);
  }

  predicate Increasing(s: seq<nat>) {
    forall a, b :: 0 <= a < b < |s| ==> s[a] < s[b]
  }

  /** Sequences with the same elements are empty together. */
  lemma SameElementsEmpty(a: seq<nat>, b: seq<nat>)
    requires forall x :: x in a <==> x in b
    ensures a == [] <==> b == []
  {
    if a != [] {
      assert a[0] in b;
    }
    if b != [] {
      assert b[0] in a;
    }
  }

  /** Two ascending sequences with the same elements are equal. */
  lemma {:induction false} IncreasingUnique(a: seq<nat>, b: seq<nat>)
    requires Increasing(a) && Increasing(b)
    requires forall x :: x in a <==> x in b
    ensures a == b
  {
    SameElementsEmpty(a, b);
    if a != [] {
      assert a[0] in b && b[0] in a;
      assert a[0] == b[0];
      forall x
        ensures x in a[1..] <==> x in b[1..]
      {
        if x in a[1..] {
          assert x in b && x != b[0];
        }
        if x in b[1..] {
          assert x in a && x != a[0];
        }
      }
      IncreasingUnique(a[1..], b[1..]);
      assert a == [a[0]] + a[1..] && b == [b[0]] + b[1..];
    }
  }

  /** The first-occurrence positions, listed in ascending order, are
      `Survivors`: the positions `drop_duplicates` keeps are determined. */
  lemma SurvivorsUnique<T>(s: seq<T>, keep: seq<nat>)
    requires Increasing(keep)
    requires forall i :: i in keep <==> IsFirst(s, i)
    ensures keep == Survivors(s)
  {
    var sv := Survivors(s);
    forall x
      ensures x in keep <==> x in sv
    {
    }
    IncreasingUnique(keep, sv);
  }
}
