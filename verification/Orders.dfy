/** Strict total orders and the enumeration of a finite set along one, as Python's `sorted` does. */
module Orders {

  ghost predicate StrictOrder<T(!new)>(less: (T, T) -> bool) {
    && (forall a :: !less(a, a))
    && (forall a, b :: a == b || less(a, b) || less(b, a))
    && (forall a, b, c :: less(a, b) && less(b, c) ==> less(a, c))
  }

  ghost predicate Climbs<T>(s: seq<T>, less: (T, T) -> bool) {
    forall i, j :: 0 <= i < j < |s| ==> less(s[i], s[j])
  }

  lemma {:induction false} LeastExists<T(!new)>(s: set<T>, less: (T, T) -> bool)
    requires StrictOrder(less) && s != {}
    ensures exists m :: m in s && forall x :: x in s && x != m ==> less(m, x)
    decreases |s|
  {
    var x :| x in s;
    var rest := s - {x};
    if rest == {} {
      assert forall y :: y in s && y != x ==> y in rest;
    } else {
      LeastExists(rest, less);
      var m :| m in rest && forall y :: y in rest && y != m ==> less(m, y);
      var least := if less(x, m) then x else m;
      forall y | y in s && y != least
        ensures less(least, y)
      {
        assert y == x || y in rest;
      }
    }
  }

  function Least<T(!new, ==)>(s: set<T>, less: (T, T) -> bool): (m: T)
    requires StrictOrder(less) && s != {}
    ensures m in s && forall x :: x in s && x != m ==> less(m, x)
  {
    LeastExists(s, less);
    var m :| m in s && forall x :: x in s && x != m ==> less(m, x);
    m
  }

  /** The members of `s`, each once, smallest first. */
  function Sorted<T(!new, ==)>(s: set<T>, less: (T, T) -> bool): (r: seq<T>)
    requires StrictOrder(less)
    ensures Climbs(r, less) && |r| == |s|
    ensures forall x :: x in r <==> x in s
    decreases |s|
  {
    if s == {} then []
    else
      var m := Least(s, less);
      [m] + Sorted(s - {m}, less)
  }

  /** A climbing sequence is the enumeration of its members. */
  lemma {:induction false} SortedUnique<T(!new)>(r: seq<T>, s: set<T>, less: (T, T) -> bool)
    requires StrictOrder(less) && Climbs(r, less)
    requires forall x :: x in r <==> x in s
    ensures r == Sorted(s, less)
    decreases |r|
  {
    if r == [] {
      assert s == {};
    } else {
      assert r[0] in s;
      var m := Least(s, less);
      var k :| 0 <= k < |r| && r[k] == m;
      forall x
        ensures x in r[1..] <==> x in s - {m}
      {
        if x in s - {m} {
          var i :| 0 <= i < |r| && r[i] == x;
          assert r[1..][i - 1] == x;
        }
      }
      SortedUnique(r[1..], s - {m}, less);
      assert r == [m] + r[1..];
    }
  }

  // ----- Strings, compared character by character

  predicate StringLess(a: string, b: string) {
    if b == [] then false
    else if a == [] then true
    else a[0] < b[0] || (a[0] == b[0] && StringLess(a[1..], b[1..]))
  }

  lemma {:induction false} StringIrreflexive(a: string)
    ensures !StringLess(a, a)
  {
    if a != [] {
      StringIrreflexive(a[1..]);
    }
  }

  lemma {:induction false} StringTotal(a: string, b: string)
    ensures a == b || StringLess(a, b) || StringLess(b, a)
  {
    if a != [] && b != [] && a[0] == b[0] {
      StringTotal(a[1..], b[1..]);
      assert a == [a[0]] + a[1..] && b == [b[0]] + b[1..];
    }
  }

  lemma {:induction false} StringTransitive(a: string, b: string, c: string)
    requires StringLess(a, b) && StringLess(b, c)
    ensures StringLess(a, c)
  {
    if a != [] && a[0] == b[0] == c[0] {
      StringTransitive(a[1..], b[1..], c[1..]);
    }
  }

  lemma StringOrder()
    ensures StrictOrder(StringLess)
  {
    forall a: string
      ensures !StringLess(a, a)
    {
      StringIrreflexive(a);
    }
    forall a: string, b: string
      ensures a == b || StringLess(a, b) || StringLess(b, a)
    {
      StringTotal(a, b);
    }
    forall a: string, b: string, c: string | StringLess(a, b) && StringLess(b, c)
      ensures StringLess(a, c)
    {
      StringTransitive(a, b, c);
    }
  }

  function SortStrings(s: set<string>): (r: seq<string>)
    ensures StrictOrder(StringLess) && r == Sorted(s, StringLess)
  {
    StringOrder();
    Sorted(s, StringLess)
  }
}
