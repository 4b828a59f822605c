/** Enumerating a finite set of integers in ascending order, as Python's `sorted(set(...))` does. */
module SortedSets {
  import opened Orders

  ghost predicate StrictlyAscending(s: seq<nat>) {
    forall i, j :: 0 <= i < j < |s| ==> s[i] < s[j]
  }

  ghost predicate NoDuplicates<T>(s: seq<T>) {
    forall i, j :: 0 <= i < j < |s| ==> s[i] != s[j]
  }

  predicate NatLess(a: nat, b: nat) {
    a < b
  }

  /** The members of `s`, each once, smallest first. */
  function Ascending(s: set<nat>): (r: seq<nat>)
    ensures StrictlyAscending(r)
    ensures forall x :: x in r <==> x in s
    ensures |r| == |s|
  {
    assert StrictOrder(NatLess);
    var r := Sorted(s, NatLess);
    assert forall i, j :: 0 <= i < j < |r| ==> NatLess(r[i], r[j]);
    r
  }

  /** A set of integers inside `0..n` has at most `n` members. */
  lemma {:induction false} BoundedCardinality(s: set<nat>, n: nat)
    requires forall x :: x in s ==> 0 <= x < n
    ensures |s| <= n
  {
    if n == 0 {
      assert s == {};
    } else {
      BoundedCardinality(s - {n - 1}, n - 1);
    }
  }

  /** A set of `n` integers inside `0..n` is all of `0..n`. */
  lemma FullRange(s: set<nat>, n: nat)
    requires forall x :: x in s ==> 0 <= x < n
    requires |s| == n
    ensures forall x :: 0 <= x < n ==> x in s
  {
    forall x | 0 <= x < n
      ensures x in s
    {
      if x !in s {
        MissOneBound(s, n, x);
      }
    }
  }

  lemma MissOneBound(s: set<nat>, n: nat, hole: nat)
    requires 0 <= hole < n && hole !in s
    requires forall x :: x in s ==> 0 <= x < n
    ensures |s| < n
  {
    BoundedCardinality(s + {hole}, n);
    assert |s + {hole}| == |s| + 1;
  }

  /** A sequence without duplicates has as many positions as distinct members. */
  lemma NoDuplicatesCount<T>(s: seq<T>)
    requires NoDuplicates(s)
    ensures |set x | x in s| == |s|
  {
    if s == [] {
      assert (set x | x in s) == {};
    } else {
      NoDuplicatesCount(s[1..]);
      assert (set x | x in s) == {s[0]} + (set x | x in s[1..]);
      assert s[0] !in s[1..] by {
        assert forall k :: 0 <= k < |s[1..]| ==> s[1..][k] == s[k + 1];
      }
    }
  }

  lemma NoDuplicatesConcat<T>(a: seq<T>, b: seq<T>)
    requires NoDuplicates(a) && NoDuplicates(b)
    requires forall x :: x in a ==> x !in b
    ensures NoDuplicates(a + b)
  {
    forall i, j | 0 <= i < j < |a + b|
      ensures (a + b)[i] != (a + b)[j]
    {
      if i < |a| <= j {
        assert a[i] in a && b[j - |a|] in b;
      }
    }
  }

  lemma SubsetSize<T>(a: set<T>, b: set<T>)
    requires a <= b
    ensures |a| <= |b|
  {
    assert b == a + (b - a);
  }
}
