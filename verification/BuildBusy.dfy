/** Busy time is the length of the union of the spans: it does not depend on the moments it is measured at. */
module BuildBusy {
  import opened BuildSweep
  import R = SortedReals

  /** Every start and every end is one of the moments. */
  ghost predicate Contains(spans: seq<Span>, times: seq<real>) {
    forall i :: 0 <= i < |spans| ==> spans[i].start in times && spans[i].end in times
  }

  /** Busy time between two neighbouring moments. */
  ghost function Piece(spans: seq<Span>, a: real, b: real): real {
    if Count(spans, a, b, |spans|) == 0 then 0.0 else b - a
  }

  /** Busy time, added up from the first moment on. */
  ghost function BusyOver(spans: seq<Span>, times: seq<real>): real {
    if |times| <= 1 then 0.0 else Piece(spans, times[0], times[1]) + BusyOver(spans, times[1..])
  }

  lemma {:induction false} BusyOverLast(spans: seq<Span>, times: seq<real>)
    requires |times| >= 2
    ensures var n := |times| - 1;
            BusyOver(spans, times) == BusyOver(spans, times[..n]) + Piece(spans, times[n - 1], times[n])
  {
    hide Piece;
    var n := |times| - 1;
    if n > 1 {
      BusyOverLast(spans, times[1..]);
      assert times[1..][..n - 1] == times[..n][1..];
    } else {
      assert times[1..] == [times[1]] && times[..1] == [times[0]];
    }
  }

  lemma {:induction false} BusyIsBusyOver(spans: seq<Span>, times: seq<real>, upTo: nat)
    requires upTo <= |times|
    ensures Busy(spans, times, upTo) == BusyOver(spans, times[..upTo])
  {
    if upTo >= 2 {
      BusyIsBusyOver(spans, times, upTo - 1);
      BusyOverLast(spans, times[..upTo]);
      assert times[..upTo][..upTo - 1] == times[..upTo - 1];
    } else if upTo == 1 {
      assert Busy(spans, times, 0) == 0.0;
    }
  }

  lemma {:induction false} CountZero(spans: seq<Span>, a: real, b: real, upTo: nat)
    requires upTo <= |spans|
    ensures Count(spans, a, b, upTo) == 0 <==> forall i :: 0 <= i < upTo ==> !Covers(spans[i], a, b)
  {
    hide Covers;
    if upTo > 0 {
      CountZero(spans, a, b, upTo - 1);
    }
  }

  /** The span neither starts nor ends strictly between `a` and `b`. */
  ghost predicate Spared(s: Span, a: real, b: real) {
    (s.start <= a || b <= s.start) && (s.end <= a || b <= s.end)
  }

  /** No start or end lies strictly between neighbouring moments, and no span reaches beyond the last one. */
  ghost predicate Resolves(spans: seq<Span>, times: seq<real>) {
    && (forall i, k :: 0 <= i < |spans| && 0 < k < |times| ==> Spared(spans[i], times[k - 1], times[k]))
    && (forall i :: 0 <= i < |spans| && times != [] ==> spans[i].end <= times[|times| - 1])
  }

  lemma ContainsResolves(spans: seq<Span>, times: seq<real>)
    requires R.Sorted(times) && Contains(spans, times)
    ensures Resolves(spans, times)
    ensures forall i :: 0 <= i < |spans| && times != [] ==> times[0] <= spans[i].start
  {
    forall i, k | 0 <= i < |spans| && 0 < k < |times|
      ensures Spared(spans[i], times[k - 1], times[k])
    {
      NotStraddled(times, k, spans[i].start);
      NotStraddled(times, k, spans[i].end);
    }
    forall i | 0 <= i < |spans| && times != []
      ensures spans[i].end <= times[|times| - 1] && times[0] <= spans[i].start
    {
      Between(times, spans[i].start);
      Between(times, spans[i].end);
    }
  }

  lemma Between(times: seq<real>, x: real)
    requires R.Sorted(times) && x in times
    ensures times != [] && times[0] <= x <= times[|times| - 1]
  {
    var k :| 0 <= k < |times| && times[k] == x;
  }

  lemma TailResolves(spans: seq<Span>, times: seq<real>)
    requires R.Sorted(times) && Resolves(spans, times) && times != []
    ensures R.Sorted(times[1..]) && Resolves(spans, times[1..])
  {
    var rest := times[1..];
    assert forall k :: 0 <= k < |rest| ==> rest[k] == times[k + 1];
  }

  lemma InsertedLater(times: seq<real>, x: real)
    requires times != [] && times[0] < x
    ensures R.Insert(times, x) == [times[0]] + R.Insert(times[1..], x)
    ensures R.Insert(times, x)[1..] == R.Insert(times[1..], x) && |R.Insert(times[1..], x)| >= 1
    ensures R.Insert(times[1..], x)[0] == if |times| == 1 || x <= times[1] then x else times[1]
    ensures |times| == 1 || x <= times[1] ==> R.Insert(times[1..], x) == [x] + times[1..]
  {
    var rest := times[1..];
    assert R.Insert(rest, x) == if rest == [] then [x] else if x <= rest[0] then [x] + rest else [rest[0]] + R.Insert(rest[1..], x);
    assert ([times[0]] + R.Insert(rest, x))[1..] == R.Insert(rest, x);
  }

  /** A moment within an interval splits its busy time. */
  lemma PieceSplits(spans: seq<Span>, a: real, x: real, b: real)
    requires a <= x <= b
    requires forall i :: 0 <= i < |spans| ==> Spared(spans[i], a, b)
    ensures Piece(spans, a, x) + Piece(spans, x, b) == Piece(spans, a, b)
  {
    hide Count;
    CountZero(spans, a, x, |spans|);
    CountZero(spans, x, b, |spans|);
    CountZero(spans, a, b, |spans|);
    if a < x < b {
      assert forall i :: 0 <= i < |spans| ==> (Covers(spans[i], a, x) <==> Covers(spans[i], a, b));
      assert forall i :: 0 <= i < |spans| ==> (Covers(spans[i], x, b) <==> Covers(spans[i], a, b));
    }
  }

  lemma PieceOutside(spans: seq<Span>, a: real, b: real)
    requires a <= b && forall i :: 0 <= i < |spans| ==> b <= spans[i].start || spans[i].end <= a
    ensures Piece(spans, a, b) == 0.0
  {
    hide Count;
    CountZero(spans, a, b, |spans|);
  }

  lemma {:induction false} LaterMomentKeepsBusy(spans: seq<Span>, times: seq<real>, x: real)
    requires R.Sorted(times) && Resolves(spans, times) && times != [] && times[0] < x
    ensures BusyOver(spans, R.Insert(times, x)) == BusyOver(spans, times)
  {
    hide Piece, R.Insert, R.Sorted, Resolves;
    var rest := times[1..];
    InsertedLater(times, x);
    TailResolves(spans, times);
    if rest == [] || x <= rest[0] {
      SplitsHere(spans, times, x);
      assert ([x] + rest)[1..] == rest;
    } else {
      LaterMomentKeepsBusy(spans, rest, x);
    }
  }

  lemma SplitsHere(spans: seq<Span>, times: seq<real>, x: real)
    requires Resolves(spans, times) && times != [] && times[0] < x && (|times| > 1 ==> x <= times[1])
    ensures |times| == 1 ==> Piece(spans, times[0], x) == 0.0
    ensures |times| > 1 ==> Piece(spans, times[0], x) + Piece(spans, x, times[1]) == Piece(spans, times[0], times[1])
  {
    hide Piece;
    if |times| == 1 {
      PieceOutside(spans, times[0], x);
    } else {
      PieceSplits(spans, times[0], x, times[1]);
    }
  }

  lemma MomentKeepsBusy(spans: seq<Span>, times: seq<real>, x: real)
    requires R.Sorted(times) && Contains(spans, times)
    ensures BusyOver(spans, R.Insert(times, x)) == BusyOver(spans, times)
  {
    hide Piece, Contains, Resolves;
    ContainsResolves(spans, times);
    if times != [] && times[0] < x {
      LaterMomentKeepsBusy(spans, times, x);
    } else if times != [] {
      PieceOutside(spans, x, times[0]);
      assert R.Insert(times, x) == [x] + times && ([x] + times)[1..] == times;
    }
  }

  lemma {:induction false} InsertMembers(times: seq<real>, x: real, y: real)
    ensures y in R.Insert(times, x) <==> y in times || y == x
  {
    if times != [] && times[0] < x {
      InsertMembers(times[1..], x, y);
    }
  }

  // ----- Two lists of moments

  ghost function InsertAll(times: seq<real>, extra: seq<real>): seq<real> {
    if extra == [] then times else R.Insert(InsertAll(times, extra[1..]), extra[0])
  }

  lemma {:induction false} InsertAllKeepsBusy(spans: seq<Span>, times: seq<real>, extra: seq<real>)
    requires R.Sorted(times) && Contains(spans, times)
    ensures var all := InsertAll(times, extra);
            && R.Sorted(all) && Contains(spans, all) && |all| == |times| + |extra|
            && BusyOver(spans, all) == BusyOver(spans, times)
    ensures forall y :: R.Count(InsertAll(times, extra), y) == R.Count(times, y) + R.Count(extra, y)
  {
    hide R.Sorted, BusyOver, R.Insert;
    if extra != [] {
      var before := InsertAll(times, extra[1..]);
      InsertAllKeepsBusy(spans, times, extra[1..]);
      R.InsertSorts(before, extra[0]);
      MomentKeepsBusy(spans, before, extra[0]);
      forall i | 0 <= i < |spans|
        ensures spans[i].start in R.Insert(before, extra[0]) && spans[i].end in R.Insert(before, extra[0])
      {
        InsertMembers(before, extra[0], spans[i].start);
        InsertMembers(before, extra[0], spans[i].end);
      }
    }
  }

  /** Any two lists of moments that contain every start and end measure the same busy time. */
  lemma BusyIsUnionLength(spans: seq<Span>, a: seq<real>, b: seq<real>)
    requires R.Sorted(a) && R.Sorted(b) && Contains(spans, a) && Contains(spans, b)
    ensures Busy(spans, a, |a|) == Busy(spans, b, |b|)
  {
    hide R.Sorted, Contains, Busy, BusyOver, InsertAll;
    BusyIsBusyOver(spans, a, |a|);
    BusyIsBusyOver(spans, b, |b|);
    assert a[..|a|] == a && b[..|b|] == b;
    InsertAllKeepsBusy(spans, a, b);
    InsertAllKeepsBusy(spans, b, a);
    R.SortedUnique(InsertAll(a, b), InsertAll(b, a));
  }
}
