/**
  Weighted build times: a sweep over start and stop events shares elapsed time among those tasks that
  run at the same moment.
 */
module BuildSweep {
  import R = SortedReals

  datatype Span = Span(start: real, end: real)

  /** Events of one build step; `task` is its position in the list of entries. */
  datatype Event = Start(time: real, task: nat) | Stop(time: real, task: nat)

  // ----- The reference: what the elapsed time between consecutive moments is worth

  ghost predicate Covers(s: Span, a: real, b: real) {
    s.start <= a && b <= s.end
  }

  /** How many of the first `upTo` tasks run throughout the interval. */
  ghost function Count(spans: seq<Span>, a: real, b: real, upTo: nat): nat
    requires upTo <= |spans|
  {
    if upTo == 0 then 0
    else Count(spans, a, b, upTo - 1) + if Covers(spans[upTo - 1], a, b) then 1 else 0
  }

  /** Elapsed time of the `k`-th interval, between moments `k - 1` and `k`. */
  ghost function Elapsed(times: seq<real>, k: nat): real
    requires k < |times|
  {
    if k == 0 then 0.0 else times[k] - times[k - 1]
  }

  ghost function Crowd(spans: seq<Span>, times: seq<real>, k: nat): nat
    requires k < |times|
  {
    if k == 0 then 0 else Count(spans, times[k - 1], times[k], |spans|)
  }

  ghost predicate RunsIn(s: Span, times: seq<real>, k: nat)
    requires k < |times|
  {
    k > 0 && Covers(s, times[k - 1], times[k])
  }

  /** Elapsed time of the interval divided by the number of tasks running in it. */
  ghost function Rate(spans: seq<Span>, times: seq<real>, k: nat): real
    requires k < |times|
  {
    if Crowd(spans, times, k) == 0 then 0.0 else Elapsed(times, k) / Crowd(spans, times, k) as real
  }

  ghost function RateSum(spans: seq<Span>, times: seq<real>, upTo: nat): real
    requires upTo <= |times|
  {
    if upTo == 0 then 0.0 else RateSum(spans, times, upTo - 1) + Rate(spans, times, upTo - 1)
  }

  /** A task's weighted duration over the first `upTo` intervals. */
  ghost function Share(spans: seq<Span>, times: seq<real>, task: nat, upTo: nat): real
    requires task < |spans| && upTo <= |times|
  {
    if upTo == 0 then 0.0
    else Share(spans, times, task, upTo - 1)
         + if RunsIn(spans[task], times, upTo - 1) then Rate(spans, times, upTo - 1) else 0.0
  }

  /** Time during which at least one task runs, over the first `upTo` intervals. */
  ghost function Busy(spans: seq<Span>, times: seq<real>, upTo: nat): real
    requires upTo <= |times|
  {
    if upTo == 0 then 0.0
    else Busy(spans, times, upTo - 1) + if Crowd(spans, times, upTo - 1) == 0 then 0.0 else Elapsed(times, upTo - 1)
  }

  ghost function ShareTotal(spans: seq<Span>, times: seq<real>, tasks: nat, upTo: nat): real
    requires tasks <= |spans| && upTo <= |times|
  {
    if tasks == 0 then 0.0
    else ShareTotal(spans, times, tasks - 1, upTo) + Share(spans, times, tasks - 1, upTo)
  }

  // ----- Conservation

  lemma {:induction false} ShareTotalStep(spans: seq<Span>, times: seq<real>, tasks: nat, k: nat)
    requires tasks <= |spans| && 0 < k < |times|
    ensures ShareTotal(spans, times, tasks, k + 1)
            == ShareTotal(spans, times, tasks, k)
               + Count(spans, times[k - 1], times[k], tasks) as real * Rate(spans, times, k)
  {
    if tasks > 0 {
      ShareTotalStep(spans, times, tasks - 1, k);
    }
  }

  lemma {:induction false} ShareTotalStart(spans: seq<Span>, times: seq<real>, tasks: nat, upTo: nat)
    requires tasks <= |spans| && upTo <= |times| && upTo <= 1
    ensures ShareTotal(spans, times, tasks, upTo) == 0.0
  {
    if tasks > 0 {
      ShareTotalStart(spans, times, tasks - 1, upTo);
      assert Share(spans, times, tasks - 1, 0) == 0.0;
    }
  }

  /** The weighted durations add up to the time during which something runs. */
  lemma {:induction false} SharesAddUpToBusy(spans: seq<Span>, times: seq<real>, upTo: nat)
    requires upTo <= |times|
    ensures ShareTotal(spans, times, |spans|, upTo) == Busy(spans, times, upTo)
  {
    if upTo <= 1 {
      ShareTotalStart(spans, times, |spans|, upTo);
    } else {
      var k := upTo - 1;
      SharesAddUpToBusy(spans, times, k);
      ShareTotalStep(spans, times, |spans|, k);
      var crowd := Crowd(spans, times, k);
      if crowd > 0 {
        assert crowd as real * (Elapsed(times, k) / crowd as real) == Elapsed(times, k);
      }
    }
  }

  // ----- Bounds

  ghost function Clip(s: Span, x: real): real {
    if x < s.start then s.start else if s.end < x then s.end else x
  }

  lemma RateBounds(spans: seq<Span>, times: seq<real>, k: nat)
    requires R.Sorted(times) && k < |times|
    ensures 0.0 <= Rate(spans, times, k) <= Elapsed(times, k)
  {
    var crowd := Crowd(spans, times, k);
    if crowd > 0 {
      ShareOfOne(Elapsed(times, k), crowd as real);
    }
  }

  lemma ShareOfOne(x: real, n: real)
    requires 0.0 <= x && 1.0 <= n
    ensures 0.0 <= x / n <= x
  {
    assert x / n * n == x;
  }

  /** Both ends of a span are among the moments, so no interval straddles one. */
  lemma {:induction false} ShareWithin(spans: seq<Span>, times: seq<real>, task: nat, upTo: nat)
    requires R.Sorted(times) && task < |spans| && 0 < upTo <= |times|
    requires spans[task].start <= spans[task].end
    requires spans[task].start in times && spans[task].end in times
    ensures 0.0 <= Share(spans, times, task, upTo)
                <= Clip(spans[task], times[upTo - 1]) - Clip(spans[task], times[0])
  {
    var s := spans[task];
    if upTo > 1 {
      var k := upTo - 1;
      ShareWithin(spans, times, task, k);
      RateBounds(spans, times, k);
      NotStraddled(times, k, s.start);
      NotStraddled(times, k, s.end);
    }
  }

  lemma NotStraddled(times: seq<real>, k: nat, x: real)
    requires R.Sorted(times) && 0 < k < |times| && x in times
    ensures x <= times[k - 1] || times[k] <= x
  {
    var i :| 0 <= i < |times| && times[i] == x;
  }

  /** Every weighted duration lies between zero and its own span's length. */
  lemma ShareAtMostDuration(spans: seq<Span>, times: seq<real>, task: nat)
    requires R.Sorted(times) && task < |spans|
    requires spans[task].start <= spans[task].end
    requires spans[task].start in times && spans[task].end in times
    ensures 0.0 <= Share(spans, times, task, |times|) <= spans[task].end - spans[task].start
  {
    ShareWithin(spans, times, task, |times|);
  }

  // ----- Idle gaps

  ghost predicate NoIdleGap(spans: seq<Span>, times: seq<real>, upTo: nat)
    requires upTo <= |times|
  {
    forall k :: 0 < k < upTo && times[k - 1] < times[k] ==> Crowd(spans, times, k) > 0
  }

  /** Busy time never exceeds the elapsed time, and reaches it exactly when there is no idle gap. */
  lemma {:induction false} BusyAgainstElapsed(spans: seq<Span>, times: seq<real>, upTo: nat)
    requires R.Sorted(times) && 0 < upTo <= |times|
    ensures 0.0 <= Busy(spans, times, upTo) <= times[upTo - 1] - times[0]
    ensures Busy(spans, times, upTo) == times[upTo - 1] - times[0] <==> NoIdleGap(spans, times, upTo)
  {
    if upTo > 1 {
      BusyAgainstElapsed(spans, times, upTo - 1);
    }
  }
}
