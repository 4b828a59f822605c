/** Lists of real numbers in order. */
module SortedReals {

  ghost predicate Sorted(s: seq<real>) {
    forall i, j :: 0 <= i <= j < |s| ==> s[i] <= s[j]
  }

  ghost function Count(s: seq<real>, x: real): nat {
    if s == [] then 0 else (if s[0] == x then 1 else 0) + Count(s[1..], x)
  }

  /** Same samples, possibly in another order. */
  ghost predicate Rearranged(a: seq<real>, b: seq<real>) {
    |a| == |b| && forall x :: Count(a, x) == Count(b, x)
  }

  function Insert(s: seq<real>, x: real): seq<real> {
    if s == [] then [x] else if x <= s[0] then [x] + s else [s[0]] + Insert(s[1..], x)
  }

  function SortReals(s: seq<real>): seq<real> {
    if s == [] then [] else Insert(SortReals(s[1..]), s[0])
  }

  lemma {:induction false} InsertSorts(s: seq<real>, x: real)
    requires Sorted(s)
    ensures Sorted(Insert(s, x)) && |Insert(s, x)| == |s| + 1
    ensures forall i :: 0 <= i < |Insert(s, x)| ==> Insert(s, x)[i] == x || (s != [] && s[0] <= Insert(s, x)[i])
    ensures forall y :: Count(Insert(s, x), y) == Count(s, y) + if x == y then 1 else 0
  {
    if s != [] && s[0] < x {
      InsertSorts(s[1..], x);
      var rest := Insert(s[1..], x);
      assert Insert(s, x) == [s[0]] + rest && ([s[0]] + rest)[1..] == rest;
    } else {
      assert ([x] + s)[1..] == s;
    }
  }

  lemma {:induction false} SortRealsSorts(s: seq<real>)
    ensures Sorted(SortReals(s)) && |SortReals(s)| == |s| && Rearranged(SortReals(s), s)
  {
    if s != [] {
      SortRealsSorts(s[1..]);
      InsertSorts(SortReals(s[1..]), s[0]);
    }
  }

  lemma {:induction false} CountFinds(s: seq<real>, x: real)
    ensures Count(s, x) > 0 <==> exists i :: 0 <= i < |s| && s[i] == x
  {
    if s != [] {
      CountFinds(s[1..], x);
      if i :| 0 <= i < |s| && s[i] == x {
        assert i > 0 ==> s[1..][i - 1] == x;
      }
      if i :| 0 <= i < |s[1..]| && s[1..][i] == x {
        assert s[i + 1] == x;
      }
    }
  }

  /** There is one way to put samples in order. */
  lemma {:induction false} SortedUnique(a: seq<real>, b: seq<real>)
    requires Sorted(a) && Sorted(b) && Rearranged(a, b)
    ensures a == b
  {
    if a != [] {
      CountFinds(a, a[0]);
      CountFinds(b, a[0]);
      CountFinds(b, b[0]);
      CountFinds(a, b[0]);
      assert a[0] == b[0];
      forall x
        ensures Count(a[1..], x) == Count(b[1..], x)
      {
        assert Count(a, x) == Count(b, x);
      }
      SortedUnique(a[1..], b[1..]);
      assert a == [a[0]] + a[1..] && b == [b[0]] + b[1..];
    }
  }
}
