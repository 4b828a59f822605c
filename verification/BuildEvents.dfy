/** The start/stop events of a build, in the order the sweep visits them. */
module BuildEvents {
  import opened SortedSets
  import opened BuildSweep
  import R = SortedReals

  /** Ordering by time, and starts before stops at the same time. */
  predicate NotAfter(a: Event, b: Event) {
    a.time < b.time || (a.time == b.time && (a.Start? || b.Stop?))
  }

  ghost predicate Ordered(ev: seq<Event>) {
    forall i, j :: 0 <= i < j < |ev| ==> NotAfter(ev[i], ev[j])
  }

  function StartOf(spans: seq<Span>, task: nat): Event
    requires task < |spans|
  {
    Start(spans[task].start, task)
  }

  function StopOf(spans: seq<Span>, task: nat): Event
    requires task < |spans|
  {
    Stop(spans[task].end, task)
  }

  ghost predicate EventOf(spans: seq<Span>, e: Event) {
    e.task < |spans| && (e == StartOf(spans, e.task) || e == StopOf(spans, e.task))
  }

  /** `ev` lists every start and stop once, in visiting order. */
  ghost predicate Arrangement(spans: seq<Span>, ev: seq<Event>) {
    && Ordered(ev) && NoDuplicates(ev)
    && (forall e :: e in ev <==> EventOf(spans, e))
  }

  // ----- Sorting

  /** Places `e` behind every event it does not precede. */
  function Insert(sorted: seq<Event>, e: Event): (r: seq<Event>)
    ensures |r| == |sorted| + 1
    ensures forall x :: x in r <==> x == e || x in sorted
  {
    if sorted == [] then [e]
    else
      var last := |sorted| - 1;
      if NotAfter(sorted[last], e) then sorted + [e]
      else Insert(sorted[..last], e) + [sorted[last]]
  }

  function SortEvents(ev: seq<Event>): (r: seq<Event>)
    ensures |r| == |ev|
    ensures forall x :: x in r <==> x in ev
  {
    if ev == [] then [] else Insert(SortEvents(ev[..|ev| - 1]), ev[|ev| - 1])
  }

  lemma {:induction false} InsertKeepsOrder(sorted: seq<Event>, e: Event)
    requires Ordered(sorted)
    ensures Ordered(Insert(sorted, e))
  {
    if sorted != [] {
      var last := |sorted| - 1;
      if !NotAfter(sorted[last], e) {
        InsertKeepsOrder(sorted[..last], e);
        var front := Insert(sorted[..last], e);
        forall i | 0 <= i < |front|
          ensures NotAfter(front[i], sorted[last])
        {
          assert front[i] in front;
        }
      }
    }
  }

  lemma {:induction false} InsertKeepsDistinct(sorted: seq<Event>, e: Event)
    requires NoDuplicates(sorted) && e !in sorted
    ensures NoDuplicates(Insert(sorted, e))
  {
    if sorted != [] {
      var last := |sorted| - 1;
      if !NotAfter(sorted[last], e) {
        InsertKeepsDistinct(sorted[..last], e);
        assert sorted[last] !in sorted[..last];
        NoDuplicatesConcat(Insert(sorted[..last], e), [sorted[last]]);
      }
    }
  }

  lemma {:induction false} SortEventsSorts(ev: seq<Event>)
    requires NoDuplicates(ev)
    ensures Ordered(SortEvents(ev)) && NoDuplicates(SortEvents(ev))
  {
    if ev != [] {
      var k := |ev| - 1;
      SortEventsSorts(ev[..k]);
      InsertKeepsOrder(SortEvents(ev[..k]), ev[k]);
      InsertKeepsDistinct(SortEvents(ev[..k]), ev[k]);
    }
  }

  /** The events of the first `upTo` tasks, as they are listed. */
  function EventsUpTo(spans: seq<Span>, upTo: nat): seq<Event>
    requires upTo <= |spans|
  {
    if upTo == 0 then []
    else EventsUpTo(spans, upTo - 1) + [StartOf(spans, upTo - 1), StopOf(spans, upTo - 1)]
  }

  lemma {:induction false} EventsListed(spans: seq<Span>, upTo: nat)
    requires upTo <= |spans|
    ensures NoDuplicates(EventsUpTo(spans, upTo)) && |EventsUpTo(spans, upTo)| == 2 * upTo
    ensures forall e :: e in EventsUpTo(spans, upTo) <==> EventOf(spans, e) && e.task < upTo
  {
    hide NoDuplicates, EventOf, StartOf, StopOf, EventsUpTo;
    EventsStep(spans, upTo);
    if upTo > 0 {
      EventsListed(spans, upTo - 1);
      var before, last := EventsUpTo(spans, upTo - 1), [StartOf(spans, upTo - 1), StopOf(spans, upTo - 1)];
      TwoEvents(spans, upTo - 1);
      assert forall e :: e in last ==> e !in before;
      NoDuplicatesConcat(before, last);
      assert forall e :: e in before + last <==> e in before || e in last;
    }
  }

  lemma EventsStep(spans: seq<Span>, upTo: nat)
    requires upTo <= |spans|
    ensures EventsUpTo(spans, upTo)
            == if upTo == 0 then [] else EventsUpTo(spans, upTo - 1) + [StartOf(spans, upTo - 1), StopOf(spans, upTo - 1)]
    ensures NoDuplicates<Event>([])
  {
  }

  lemma TwoEvents(spans: seq<Span>, task: nat)
    requires task < |spans|
    ensures NoDuplicates([StartOf(spans, task), StopOf(spans, task)])
    ensures forall e :: e in [StartOf(spans, task), StopOf(spans, task)] <==> EventOf(spans, e) && e.task == task
  {
  }

  /** Sorting the listed events gives an arrangement. */
  lemma SortedArrangement(spans: seq<Span>)
    ensures Arrangement(spans, SortEvents(EventsUpTo(spans, |spans|)))
    ensures |SortEvents(EventsUpTo(spans, |spans|))| == 2 * |spans|
  {
    EventsListed(spans, |spans|);
    SortEventsSorts(EventsUpTo(spans, |spans|));
  }

  // ----- Which tasks run between events

  ghost predicate RunningAt(spans: seq<Span>, ev: seq<Event>, task: nat, k: nat)
    requires task < |spans| && k <= |ev|
  {
    StartOf(spans, task) in ev[..k] && StopOf(spans, task) !in ev[..k]
  }

  ghost function Times(ev: seq<Event>): (times: seq<real>)
    ensures |times| == |ev|
  {
    seq(|ev|, k requires 0 <= k < |ev| => ev[k].time)
  }

  lemma TimesAscend(ev: seq<Event>)
    requires Ordered(ev)
    ensures R.Sorted(Times(ev))
  {
  }

  /** In an interval of positive length, the running tasks are the ones whose span covers it. */
  lemma RunningIsCovering(spans: seq<Span>, ev: seq<Event>, task: nat, k: nat)
    requires Arrangement(spans, ev) && task < |spans| && 0 < k < |ev|
    requires ev[k - 1].time < ev[k].time
    ensures RunningAt(spans, ev, task, k) <==> Covers(spans[task], ev[k - 1].time, ev[k].time)
  {
    Side(spans, ev, StartOf(spans, task), k);
    Side(spans, ev, StopOf(spans, task), k);
  }

  /** An event lies before position `k` exactly when its time is not after the interval's beginning. */
  lemma Side(spans: seq<Span>, ev: seq<Event>, e: Event, k: nat)
    requires Arrangement(spans, ev) && EventOf(spans, e) && 0 < k < |ev|
    requires ev[k - 1].time < ev[k].time
    ensures if e in ev[..k] then e.time <= ev[k - 1].time else ev[k].time <= e.time
  {
    var i :| 0 <= i < |ev| && ev[i] == e;
    if i < k {
      assert ev[..k][i] == e;
    }
  }

  ghost function RunningSet(spans: seq<Span>, ev: seq<Event>, k: nat, upTo: nat): set<nat>
    requires upTo <= |spans| && k <= |ev|
  {
    set i: nat | 0 <= i < upTo && RunningAt(spans, ev, i, k)
  }

  lemma {:induction false} RunningCount(spans: seq<Span>, ev: seq<Event>, k: nat, upTo: nat)
    requires Arrangement(spans, ev) && 0 < k < |ev| && upTo <= |spans|
    requires ev[k - 1].time < ev[k].time
    ensures |RunningSet(spans, ev, k, upTo)| == Count(spans, ev[k - 1].time, ev[k].time, upTo)
  {
    hide Arrangement;
    if upTo == 0 {
      assert RunningSet(spans, ev, k, upTo) == {};
    } else {
      var i := upTo - 1;
      RunningCount(spans, ev, k, i);
      RunningIsCovering(spans, ev, i, k);
      assert RunningSet(spans, ev, k, upTo)
          == RunningSet(spans, ev, k, i) + if RunningAt(spans, ev, i, k) then {i} else {};
    }
  }
}
