/** What weighing changes: a task keeps its full duration exactly when nothing else runs meanwhile. */
module BuildOverlap {
  import opened BuildSweep
  import opened BuildEvents
  import opened BuildBusy
  import opened BuildSummary
  import R = SortedReals

  /** Two spans have more than a moment in common. */
  ghost predicate Overlap(s: Span, t: Span) {
    && s.start < s.end && t.start < t.end && s.start < t.end && t.start < s.end
  }

  ghost predicate Alone(spans: seq<Span>, task: nat)
    requires task < |spans|
  {
    forall j :: 0 <= j < |spans| && j != task ==> !Overlap(spans[task], spans[j])
  }

  // ----- Counting next to a task that runs

  lemma {:induction false} CountBeside(spans: seq<Span>, a: real, b: real, task: nat, upTo: nat)
    requires upTo <= |spans| && task < |spans| && Covers(spans[task], a, b)
    ensures var own := if task < upTo then 1 else 0;
            && own <= Count(spans, a, b, upTo)
            && (Count(spans, a, b, upTo) == own <==> forall j :: 0 <= j < upTo && j != task ==> !Covers(spans[j], a, b))
  {
    hide Covers;
    if upTo > 0 {
      CountBeside(spans, a, b, task, upTo - 1);
    }
  }

  /** Equal shares: tasks that run in the same interval gain the same. */
  lemma SharesSplitEqually(spans: seq<Span>, times: seq<real>, i: nat, j: nat, k: nat)
    requires i < |spans| && j < |spans| && k < |times| && RunsIn(spans[i], times, k) && RunsIn(spans[j], times, k)
    ensures Share(spans, times, i, k + 1) - Share(spans, times, i, k)
            == Share(spans, times, j, k + 1) - Share(spans, times, j, k)
  {
  }

  lemma RateIsElapsed(spans: seq<Span>, times: seq<real>, k: nat)
    requires R.Sorted(times) && k < |times| && Crowd(spans, times, k) > 0
    ensures Rate(spans, times, k) <= Elapsed(times, k)
    ensures Rate(spans, times, k) == Elapsed(times, k) <==> Elapsed(times, k) == 0.0 || Crowd(spans, times, k) == 1
  {
    hide Crowd;
    var crowd := Crowd(spans, times, k);
    RateBounds(spans, times, k);
    WholeQuotient(Elapsed(times, k), crowd as real);
  }

  lemma WholeQuotient(x: real, n: real)
    requires 1.0 <= n
    ensures x / n == x <==> x == 0.0 || n == 1.0
  {
    var q := x / n;
    assert q * n == x;
    if q == x {
      NoProduct(x, n - 1.0);
    }
  }

  lemma NoProduct(x: real, y: real)
    requires x * y == 0.0
    ensures x == 0.0 || y == 0.0
  {
  }

  /** The task runs by itself in every interval of positive length in which it runs. */
  ghost predicate ByItself(spans: seq<Span>, times: seq<real>, task: nat, upTo: nat)
    requires task < |spans| && upTo <= |times|
  {
    forall k :: 0 < k < upTo && RunsIn(spans[task], times, k) && times[k - 1] < times[k] ==> Crowd(spans, times, k) == 1
  }

  lemma IntervalGain(spans: seq<Span>, times: seq<real>, task: nat, k: nat)
    requires R.Sorted(times) && task < |spans| && 0 < k < |times| && spans[task].start <= spans[task].end
    requires spans[task].start in times && spans[task].end in times
    ensures var gain := Share(spans, times, task, k + 1) - Share(spans, times, task, k);
            var full := Clip(spans[task], times[k]) - Clip(spans[task], times[k - 1]);
            && gain <= full
            && (gain == full <==> (RunsIn(spans[task], times, k) && times[k - 1] < times[k] ==> Crowd(spans, times, k) == 1))
  {
    hide Count, Rate;
    var s := spans[task];
    NotStraddled(times, k, s.start);
    NotStraddled(times, k, s.end);
    if RunsIn(s, times, k) {
      CountBeside(spans, times[k - 1], times[k], task, |spans|);
      RateIsElapsed(spans, times, k);
    }
  }

  lemma {:induction false} ShareAgainstClip(spans: seq<Span>, times: seq<real>, task: nat, upTo: nat)
    requires R.Sorted(times) && task < |spans| && 0 < upTo <= |times| && spans[task].start <= spans[task].end
    requires spans[task].start in times && spans[task].end in times
    ensures var full := Clip(spans[task], times[upTo - 1]) - Clip(spans[task], times[0]);
            && Share(spans, times, task, upTo) <= full
            && (Share(spans, times, task, upTo) == full <==> ByItself(spans, times, task, upTo))
  {
    hide Crowd, Clip, Rate, RunsIn, R.Sorted;
    if upTo == 1 {
      NothingYet(spans, times, task);
    } else {
      ShareAgainstClip(spans, times, task, upTo - 1);
      IntervalGain(spans, times, task, upTo - 1);
    }
  }

  lemma NothingYet(spans: seq<Span>, times: seq<real>, task: nat)
    requires task < |spans| && 0 < |times|
    ensures Share(spans, times, task, 1) == 0.0
  {
    assert Share(spans, times, task, 0) == 0.0;
  }

  // ----- Overlap shows in some interval

  /** The first moment after `a`, when `a` itself is a moment and something comes after it. */
  lemma {:induction false} NextMoment(times: seq<real>, a: real, b: real, k: nat) returns (n: nat)
    requires R.Sorted(times) && a in times && k < |times| && times[k] == b && a < b
    ensures 0 < n < |times| && times[n - 1] == a && a < times[n] <= b
    decreases k
  {
    var i :| 0 <= i < |times| && times[i] == a;
    if times[k - 1] == a {
      n := k;
    } else {
      n := NextMoment(times, a, times[k - 1], k - 1);
    }
  }

  lemma OverlapShows(spans: seq<Span>, times: seq<real>, task: nat, j: nat)
    requires R.Sorted(times) && Contains(spans, times) && task < |spans| && j < |spans| && j != task
    requires Overlap(spans[task], spans[j])
    ensures !ByItself(spans, times, task, |times|)
  {
    hide Count;
    var s, t := spans[task], spans[j];
    var a := if s.start < t.start then t.start else s.start;
    var b := if s.end < t.end then s.end else t.end;
    var e :| 0 <= e < |times| && times[e] == b;
    var k := NextMoment(times, a, b, e);
    CountBeside(spans, times[k - 1], times[k], task, |spans|);
    assert Covers(t, times[k - 1], times[k]) && RunsIn(s, times, k);
  }

  lemma AloneIsByItself(spans: seq<Span>, times: seq<real>, task: nat)
    requires R.Sorted(times) && Contains(spans, times) && task < |spans|
    ensures ByItself(spans, times, task, |times|) <==> Alone(spans, task)
  {
    hide Count, ByItself;
    if j :| 0 <= j < |spans| && j != task && Overlap(spans[task], spans[j]) {
      OverlapShows(spans, times, task, j);
    } else {
      AloneRunsAlone(spans, times, task);
    }
  }

  lemma AloneRunsAlone(spans: seq<Span>, times: seq<real>, task: nat)
    requires task < |spans| && Alone(spans, task)
    ensures ByItself(spans, times, task, |times|)
  {
    hide Count;
    forall k | 0 < k < |times| && RunsIn(spans[task], times, k) && times[k - 1] < times[k]
      ensures Crowd(spans, times, k) == 1
    {
      CountBeside(spans, times[k - 1], times[k], task, |spans|);
      assert forall j :: 0 <= j < |spans| && Covers(spans[j], times[k - 1], times[k]) ==> j == task || Overlap(spans[task], spans[j]);
    }
  }

  /** A weighted duration is the full duration exactly when no other task overlaps it. */
  lemma FullShareExactly(spans: seq<Span>, times: seq<real>, task: nat)
    requires R.Sorted(times) && Contains(spans, times) && task < |spans| && spans[task].start <= spans[task].end
    ensures Share(spans, times, task, |times|) <= spans[task].end - spans[task].start
    ensures Share(spans, times, task, |times|) == spans[task].end - spans[task].start <==> Alone(spans, task)
  {
    hide Share, ByItself, Alone;
    ShareAgainstClip(spans, times, task, |times|);
    AloneIsByItself(spans, times, task);
    Between(times, spans[task].start);
    Between(times, spans[task].end);
  }

  lemma {:induction false} CpuAgainstShares(spans: seq<Span>, times: seq<real>, upTo: nat)
    requires R.Sorted(times) && Contains(spans, times) && AllForward(spans) && upTo <= |spans|
    ensures ShareTotal(spans, times, upTo, |times|) <= CpuTime(spans, upTo)
    ensures ShareTotal(spans, times, upTo, |times|) == CpuTime(spans, upTo) <==> forall i :: 0 <= i < upTo ==> Alone(spans, i)
  {
    hide Share, Alone, R.Sorted, Contains;
    if upTo > 0 {
      CpuAgainstShares(spans, times, upTo - 1);
      FullShareExactly(spans, times, upTo - 1);
    }
  }

  lemma EndsListed(spans: seq<Span>, ev: seq<Event>)
    requires Arrangement(spans, ev)
    ensures R.Sorted(Times(ev)) && Contains(spans, Times(ev))
  {
    TimesAscend(ev);
    forall i | 0 <= i < |spans|
      ensures spans[i].start in Times(ev) && spans[i].end in Times(ev)
    {
      TimeListed(spans, ev, StartOf(spans, i));
      TimeListed(spans, ev, StopOf(spans, i));
    }
  }

  /** The weighted total is never above the CPU time, and equals it exactly when no two tasks overlap. */
  lemma CpuTimeAgainstTotal(spans: seq<Span>, ev: seq<Event>)
    requires Arrangement(spans, ev) && AllForward(spans)
    ensures Busy(spans, Times(ev), |ev|) <= CpuTime(spans, |spans|)
    ensures Busy(spans, Times(ev), |ev|) == CpuTime(spans, |spans|)
            <==> forall i, j :: 0 <= i < j < |spans| ==> !Overlap(spans[i], spans[j])
  {
    hide Arrangement, Busy, Share, CpuTime, R.Sorted, Contains;
    EndsListed(spans, ev);
    SharesAddUpToBusy(spans, Times(ev), |ev|);
    CpuAgainstShares(spans, Times(ev), |spans|);
    PairsAreAlone(spans);
  }

  lemma PairsAreAlone(spans: seq<Span>)
    ensures (forall i, j :: 0 <= i < j < |spans| ==> !Overlap(spans[i], spans[j])) <==> forall i :: 0 <= i < |spans| ==> Alone(spans, i)
  {
    if forall i, j :: 0 <= i < j < |spans| ==> !Overlap(spans[i], spans[j]) {
      forall i | 0 <= i < |spans|
        ensures Alone(spans, i)
      {
        assert forall j :: 0 <= j < i ==> !Overlap(spans[j], spans[i]);
      }
    }
    if forall i :: 0 <= i < |spans| ==> Alone(spans, i) {
      forall i, j | 0 <= i < j < |spans|
        ensures !Overlap(spans[i], spans[j])
      {
        assert Alone(spans, i);
      }
    }
  }

  /** So too for each target: its weighted duration is its full one exactly when nothing overlaps it. */
  lemma UndividedExactly(spans: seq<Span>, ev: seq<Event>, task: nat)
    requires Arrangement(spans, ev) && AllForward(spans) && task < |spans|
    ensures Share(spans, Times(ev), task, |ev|) == spans[task].end - spans[task].start <==> Alone(spans, task)
  {
    hide Arrangement, Share, Alone, R.Sorted, Contains;
    EndsListed(spans, ev);
    FullShareExactly(spans, Times(ev), task);
  }
}
