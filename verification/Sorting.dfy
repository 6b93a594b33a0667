/** The library routines for sorting and shuffling, by their contracts. */
module Sorting {

  /** What sorting asks of a comparison: no two elements come before each other, and not coming
      before is transitive. */
  ghost predicate Comparison<T(!new)>(less: (T, T) -> bool) {
    (forall a, b | less(a, b) :: !less(b, a)) &&
    (forall a, b, c | !less(b, a) && !less(c, b) :: !less(c, a))
  }

  ghost predicate Sorted<T>(s: seq<T>, less: (T, T) -> bool) {
    forall i, j :: 0 <= i < j < |s| ==> !less(s[j], s[i])
  }

  method Sort<T(!new)>(s: seq<T>, less: (T, T) -> bool) returns (t: seq<T>)
    requires Comparison(less)
    ensures Sorted(t, less) && multiset(t) == multiset(s)
  {
    hide Sorted;
    EmptySorted(less);
    t := [];
    for n := 0 to |s|
      invariant Sorted(t, less) && multiset(t) == multiset(s[..n])
    {
      t := Insert(t, s[n], less);
      assert s[..n + 1] == s[..n] + [s[n]];
    }
    assert s[..|s|] == s;
  }

  lemma EmptySorted<T>(less: (T, T) -> bool)
    ensures Sorted([], less)
  {
  }

  method Insert<T(!new)>(s: seq<T>, x: T, less: (T, T) -> bool) returns (t: seq<T>)
    requires Comparison(less) && Sorted(s, less)
    ensures Sorted(t, less) && multiset(t) == multiset(s) + multiset{x}
  {
    var i := |s|;
    while i > 0 && less(x, s[i - 1])
      invariant 0 <= i <= |s|
      invariant forall j :: i <= j < |s| ==> less(x, s[j])
    {
      i := i - 1;
    }
    t := s[..i] + [x] + s[i..];
    assert s == s[..i] + s[i..];
    InsertedBetween(s, i, x, less);
  }

  lemma InsertedBetween<T(!new)>(s: seq<T>, i: nat, x: T, less: (T, T) -> bool)
    requires Comparison(less) && Sorted(s, less) && i <= |s|
    requires i > 0 ==> !less(x, s[i - 1])
    requires forall j :: i <= j < |s| ==> less(x, s[j])
    ensures Sorted(s[..i] + [x] + s[i..], less)
  {
    forall j | 0 <= j < i ensures !less(x, s[j]) {
      if j < i - 1 { assert !less(s[i - 1], s[j]); }
    }
    forall j | i <= j < |s| ensures !less(s[j], x) {
    }
    hide Comparison;
  }

  function Swapped<T>(s: seq<T>, i: nat, j: nat): (r: seq<T>)
    requires i < |s| && j < |s|
    ensures multiset(r) == multiset(s)
  {
    s[i := s[j]][j := s[i]]
  }

  /** Any order may come out. */
  method Shuffle<T>(s: seq<T>) returns (t: seq<T>)
    ensures multiset(t) == multiset(s) && |t| == |s|
  {
    t := s;
    var i := |t|;
    while i > 1
      invariant 0 <= i <= |t| == |s| && multiset(t) == multiset(s)
    {
      i := i - 1;
      var j: nat :| j <= i;
      t := Swapped(t, i, j);
    }
  }

  lemma SubsetCount<T>(a: set<T>, b: set<T>)
    requires a <= b
    ensures |a| <= |b|
  {
    assert b == a + (b - a);
  }

  ghost predicate NoRepeats<T>(s: seq<T>) {
    forall i, j :: 0 <= i < j < |s| ==> s[i] != s[j]
  }

  lemma SubsetSame<T>(a: set<T>, b: set<T>)
    requires a <= b && |b| <= |a|
    ensures a == b
  {
    assert b == a + (b - a);
  }

  /** A permutation has the same members, and repeats none if the original does not. */
  lemma NoRepeatsPermuted<T(!new)>(a: seq<T>, b: seq<T>)
    requires multiset(a) == multiset(b)
    ensures |a| == |b| && forall x :: x in b <==> x in a
    ensures NoRepeats(a) ==> NoRepeats(b)
  {
    assert |a| == |multiset(a)| && |b| == |multiset(b)|;
    forall x ensures x in b <==> x in a {
      assert x in multiset(a) <==> x in multiset(b);
    }
    forall i, j | NoRepeats(a) && 0 <= i < j < |b| ensures b[i] != b[j] {
      if b[i] == b[j] {
        Twice(b, i, j);
        Once(a, b[i]);
      }
    }
  }

  lemma Twice<T>(b: seq<T>, i: nat, j: nat)
    requires i < j < |b| && b[i] == b[j]
    ensures multiset(b)[b[i]] >= 2
  {
    assert b == b[..i] + [b[i]] + b[i + 1..j] + [b[j]] + b[j + 1..];
  }

  lemma {:induction false} Once<T>(a: seq<T>, x: T)
    requires NoRepeats(a)
    ensures multiset(a)[x] <= 1
  {
    if a != [] {
      Once(a[1..], x);
      assert a == [a[0]] + a[1..];
    }
  }
}
