/** The sweep itself, on the target objects of the log. */
module BuildSummary {
  import opened BuildSweep
  import opened BuildEvents
  import opened BuildBusy
  import R = SortedReals

  class Target {
    const start: real
    const end: real
    var weightedDuration: real

    constructor (start: real, end: real)
      ensures this.start == start && this.end == end && weightedDuration == 0.0
    {
      this.start := start;
      this.end := end;
      weightedDuration := 0.0;
    }
  }

  function SpansOf(entries: seq<Target>): seq<Span> {
    seq(|entries|, i requires 0 <= i < |entries| => Span(entries[i].start, entries[i].end))
  }

  ghost predicate AllForward(spans: seq<Span>) {
    forall i :: 0 <= i < |spans| ==> spans[i].start <= spans[i].end
  }

  // ----- Bookkeeping of the sweep

  /** Where the first `k` events leave a task: not started, running since a recorded level, or weighed. */
  ghost predicate TaskState(spans: seq<Span>, ev: seq<Event>, k: nat, running: map<nat, real>, weights: seq<real>, i: nat)
    requires i < |spans| == |weights| && k <= |ev|
  {
    var share := Share(spans, Times(ev), i, k);
    && (i in running <==> RunningAt(spans, ev, i, k))
    && (StartOf(spans, i) !in ev[..k] ==> share == 0.0)
    && (StopOf(spans, i) in ev[..k] ==> StartOf(spans, i) in ev[..k] && spans[i].start <= spans[i].end)
    && (i in running ==> running[i] == RateSum(spans, Times(ev), k) - share)
    && weights[i] == if StopOf(spans, i) in ev[..k] then share else 0.0
  }

  ghost predicate SweepState(spans: seq<Span>, ev: seq<Event>, k: nat, running: map<nat, real>, weights: seq<real>) {
    && |weights| == |spans| && k <= |ev|
    && (forall i :: i in running ==> i < |spans|)
    && (forall i :: 0 <= i < |spans| ==> TaskState(spans, ev, k, running, weights, i))
  }

  lemma SweepStart(spans: seq<Span>, ev: seq<Event>)
    ensures SweepState(spans, ev, 0, map[], seq(|spans|, i => 0.0)) && RateSum(spans, Times(ev), 0) == 0.0
  {
  }

  lemma RunningCrowd(spans: seq<Span>, ev: seq<Event>, k: nat, running: map<nat, real>, weights: seq<real>)
    requires Arrangement(spans, ev) && 0 < k < |ev| && SweepState(spans, ev, k, running, weights)
    requires ev[k - 1].time < ev[k].time
    ensures |running| == Crowd(spans, Times(ev), k)
  {
    hide Arrangement, Share, RateSum;
    RunningCount(spans, ev, k, |spans|);
    forall i: nat
      ensures i in running <==> i in RunningSet(spans, ev, k, |spans|)
    {
      if i < |spans| {
        assert TaskState(spans, ev, k, running, weights, i);
      }
    }
    assert running.Keys == RunningSet(spans, ev, k, |spans|);
  }

  /** Advancing the level by the elapsed time over the number of running tasks is advancing it by the rate. */
  lemma LevelStep(spans: seq<Span>, ev: seq<Event>, k: nat, running: map<nat, real>, weights: seq<real>)
    requires Arrangement(spans, ev) && k < |ev| && SweepState(spans, ev, k, running, weights)
    ensures var elapsed := Elapsed(Times(ev), k);
            RateSum(spans, Times(ev), k + 1)
            == RateSum(spans, Times(ev), k) + if |running| > 0 then elapsed / |running| as real else 0.0
  {
    hide SweepState, Share;
    if k > 0 && ev[k - 1].time < ev[k].time {
      RunningCrowd(spans, ev, k, running, weights);
    } else {
      assert k > 0 ==> NotAfter(ev[k - 1], ev[k]);
      assert Elapsed(Times(ev), k) == 0.0;
    }
  }

  lemma ShareStep(spans: seq<Span>, ev: seq<Event>, k: nat, i: nat)
    requires Arrangement(spans, ev) && k < |ev| && i < |spans|
    ensures Share(spans, Times(ev), i, k + 1)
            == Share(spans, Times(ev), i, k) + if RunningAt(spans, ev, i, k) then Rate(spans, Times(ev), k) else 0.0
  {
    hide RunningAt;
    if k > 0 && ev[k - 1].time < ev[k].time {
      RunningIsCovering(spans, ev, i, k);
    } else {
      assert k > 0 ==> NotAfter(ev[k - 1], ev[k]);
      assert Elapsed(Times(ev), k) == 0.0;
    }
  }

  lemma BystanderStep(spans: seq<Span>, ev: seq<Event>, k: nat, running: map<nat, real>, weights: seq<real>,
                      running': map<nat, real>, weights': seq<real>, i: nat)
    requires Arrangement(spans, ev) && k < |ev| && i < |spans| == |weights| == |weights'| && i != ev[k].task
    requires TaskState(spans, ev, k, running, weights, i)
    requires (i in running <==> i in running') && (i in running ==> running[i] == running'[i]) && weights[i] == weights'[i]
    ensures TaskState(spans, ev, k + 1, running', weights', i)
  {
    hide Arrangement, Share, Rate;
    ShareStep(spans, ev, k, i);
    assert ev[..k + 1] == ev[..k] + [ev[k]];
  }

  lemma OthersStep(spans: seq<Span>, ev: seq<Event>, k: nat, running: map<nat, real>, weights: seq<real>,
                   running': map<nat, real>, weights': seq<real>)
    requires Arrangement(spans, ev) && k < |ev| && SweepState(spans, ev, k, running, weights)
    requires ev[k].task < |spans| == |weights'|
    requires forall i :: i in running' ==> i in running || i == ev[k].task
    requires forall i :: i in running && i != ev[k].task ==> i in running' && running'[i] == running[i]
    requires forall i :: 0 <= i < |weights| && i != ev[k].task ==> weights'[i] == weights[i]
    requires TaskState(spans, ev, k + 1, running', weights', ev[k].task)
    ensures SweepState(spans, ev, k + 1, running', weights')
  {
    hide Arrangement, TaskState;
    var next := k + 1;
    forall i | 0 <= i < |spans|
      ensures TaskState(spans, ev, next, running', weights', i)
    {
      if i != ev[k].task {
        BystanderStep(spans, ev, k, running, weights, running', weights', i);
      }
    }
  }

  lemma StartStep(spans: seq<Span>, ev: seq<Event>, k: nat, running: map<nat, real>, weights: seq<real>)
    requires Arrangement(spans, ev) && k < |ev| && ev[k].Start? && SweepState(spans, ev, k, running, weights)
    ensures SweepState(spans, ev, k + 1, running[ev[k].task := RateSum(spans, Times(ev), k + 1)], weights)
  {
    var task := ev[k].task;
    assert EventOf(spans, ev[k]) && ev[k] == StartOf(spans, task) && ev[k] !in ev[..k];
    assert TaskState(spans, ev, k, running, weights, task);
    ShareStep(spans, ev, k, task);
    assert ev[..k + 1] == ev[..k] + [ev[k]];
    hide Arrangement, Share, RateSum, SweepState;
    OthersStep(spans, ev, k, running, weights, running[task := RateSum(spans, Times(ev), k + 1)], weights);
  }

  lemma StopStep(spans: seq<Span>, ev: seq<Event>, k: nat, running: map<nat, real>, weights: seq<real>)
    requires Arrangement(spans, ev) && k < |ev| && ev[k].Stop? && SweepState(spans, ev, k, running, weights)
    requires ev[k].task in running && ev[k].task < |weights|
    ensures weights[ev[k].task] == 0.0
    ensures var level := RateSum(spans, Times(ev), k + 1);
            SweepState(spans, ev, k + 1, running - {ev[k].task},
                       weights[ev[k].task := level - running[ev[k].task]])
  {
    var task := ev[k].task;
    assert EventOf(spans, ev[k]) && ev[k] == StopOf(spans, task) && ev[k] !in ev[..k];
    assert TaskState(spans, ev, k, running, weights, task);
    ShareStep(spans, ev, k, task);
    assert ev[..k + 1] == ev[..k] + [ev[k]];
    var j :| 0 <= j < k && ev[..k][j] == StartOf(spans, task);
    assert NotAfter(ev[j], ev[k]);
    hide Arrangement, Share, RateSum, SweepState;
    OthersStep(spans, ev, k, running, weights, running - {task},
               weights[task := RateSum(spans, Times(ev), k + 1) - running[task]]);
  }

  /** A stop finds its task running exactly when that one does not end before it starts. */
  lemma StopFindsTask(spans: seq<Span>, ev: seq<Event>, k: nat, running: map<nat, real>, weights: seq<real>)
    requires Arrangement(spans, ev) && k < |ev| && ev[k].Stop? && SweepState(spans, ev, k, running, weights)
    ensures ev[k].task < |spans|
    ensures ev[k].task in running <==> spans[ev[k].task].start <= spans[ev[k].task].end
  {
    var task := ev[k].task;
    assert EventOf(spans, ev[k]) && ev[k] == StopOf(spans, task) && ev[k] !in ev[..k];
    assert TaskState(spans, ev, k, running, weights, task);
    assert EventOf(spans, StartOf(spans, task));
    var j :| 0 <= j < |ev| && ev[j] == StartOf(spans, task);
    if j < k {
      assert NotAfter(ev[j], ev[k]) && ev[..k][j] == StartOf(spans, task);
    } else {
      assert NotAfter(ev[k], ev[j]);
    }
  }

  ghost function Sum(w: seq<real>): real {
    if w == [] then 0.0 else Sum(w[..|w| - 1]) + w[|w| - 1]
  }

  lemma {:induction false} SumUpdate(w: seq<real>, i: nat, x: real)
    requires i < |w|
    ensures Sum(w[i := x]) == Sum(w) - w[i] + x
  {
    var last := |w| - 1;
    if i == last {
      assert w[i := x][..last] == w[..last];
    } else {
      SumUpdate(w[..last], i, x);
      assert w[i := x][..last] == w[..last][i := x];
    }
  }

  lemma {:induction false} SumZero(n: nat)
    ensures Sum(seq(n, i => 0.0)) == 0.0
  {
    if n > 0 {
      SumZero(n - 1);
      assert seq(n, i => 0.0)[..n - 1] == seq(n - 1, i => 0.0);
    }
  }

  lemma {:induction false} SumOfShares(spans: seq<Span>, times: seq<real>, w: seq<real>)
    requires |w| <= |spans| && forall i :: 0 <= i < |w| ==> w[i] == Share(spans, times, i, |times|)
    ensures Sum(w) == ShareTotal(spans, times, |w|, |times|)
  {
    if w != [] {
      SumOfShares(spans, times, w[..|w| - 1]);
    }
  }

  /** After the last event every task is weighed and none is left running. */
  lemma SweepEnd(spans: seq<Span>, ev: seq<Event>, running: map<nat, real>, weights: seq<real>)
    requires Arrangement(spans, ev) && SweepState(spans, ev, |ev|, running, weights)
    ensures running == map[] && AllForward(spans)
    ensures forall i :: 0 <= i < |spans| ==> weights[i] == Share(spans, Times(ev), i, |ev|)
    ensures Sum(weights) == Busy(spans, Times(ev), |ev|)
  {
    forall i | 0 <= i < |spans|
      ensures i !in running && spans[i].start <= spans[i].end && weights[i] == Share(spans, Times(ev), i, |ev|)
    {
      assert TaskState(spans, ev, |ev|, running, weights, i);
      assert ev[..|ev|] == ev && EventOf(spans, StopOf(spans, i));
    }
    SumOfShares(spans, Times(ev), weights);
    SharesAddUpToBusy(spans, Times(ev), |ev|);
  }

  // ----- Extent of the build

  /** The scan for the earliest start; a negative value means that none has been seen. */
  function Earliest(spans: seq<Span>, upTo: nat): real
    requires upTo <= |spans|
  {
    if upTo == 0 then -1.0
    else
      var e := Earliest(spans, upTo - 1);
      if e < 0.0 || spans[upTo - 1].start < e then spans[upTo - 1].start else e
  }

  function Latest(spans: seq<Span>, upTo: nat): real
    requires upTo <= |spans|
  {
    if upTo == 0 then 0.0
    else
      var e := Latest(spans, upTo - 1);
      if spans[upTo - 1].end > e then spans[upTo - 1].end else e
  }

  function CpuTime(spans: seq<Span>, upTo: nat): real
    requires upTo <= |spans|
  {
    if upTo == 0 then 0.0 else CpuTime(spans, upTo - 1) + (spans[upTo - 1].end - spans[upTo - 1].start)
  }

  ghost predicate IsEarliest(spans: seq<Span>, x: real) {
    (exists i :: 0 <= i < |spans| && spans[i].start == x) && forall i :: 0 <= i < |spans| ==> x <= spans[i].start
  }

  ghost predicate IsLatest(spans: seq<Span>, x: real) {
    (exists i :: 0 <= i < |spans| && spans[i].end == x) && forall i :: 0 <= i < |spans| ==> spans[i].end <= x
  }

  /** Nothing starts before time zero, or what is listed last does and nothing starts before it. */
  ghost predicate EarliestIsSeen(spans: seq<Span>) {
    || (forall i :: 0 <= i < |spans| ==> 0.0 <= spans[i].start)
    || (spans != [] && spans[|spans| - 1].start < 0.0
        && forall i :: 0 <= i < |spans| ==> spans[|spans| - 1].start <= spans[i].start)
  }

  ghost predicate LatestIsSeen(spans: seq<Span>) {
    exists i :: 0 <= i < |spans| && 0.0 <= spans[i].end
  }

  /** A negative start replaces whatever was seen before it. */
  lemma {:induction false} EarliestSign(spans: seq<Span>, upTo: nat)
    requires 0 < upTo <= |spans|
    ensures if spans[upTo - 1].start < 0.0 then Earliest(spans, upTo) == spans[upTo - 1].start else 0.0 <= Earliest(spans, upTo)
  {
    if upTo > 1 {
      EarliestSign(spans, upTo - 1);
    }
  }

  lemma {:induction false} EarliestBounds(spans: seq<Span>, upTo: nat)
    requires 0 < upTo <= |spans| && forall i :: 0 <= i < upTo ==> 0.0 <= spans[i].start
    ensures exists i :: 0 <= i < upTo && spans[i].start == Earliest(spans, upTo)
    ensures forall i :: 0 <= i < upTo ==> Earliest(spans, upTo) <= spans[i].start
  {
    if upTo == 1 {
      assert Earliest(spans, 0) == -1.0;
      assert spans[0].start == Earliest(spans, 1);
    } else {
      EarliestBounds(spans, upTo - 1);
      if Earliest(spans, upTo) != Earliest(spans, upTo - 1) {
        assert spans[upTo - 1].start == Earliest(spans, upTo);
      }
    }
  }

  /** The scan finds the earliest start exactly under the condition above. */
  lemma EarliestExactly(spans: seq<Span>)
    requires spans != []
    ensures IsEarliest(spans, Earliest(spans, |spans|)) <==> EarliestIsSeen(spans)
  {
    EarliestSign(spans, |spans|);
    if forall i :: 0 <= i < |spans| ==> 0.0 <= spans[i].start {
      EarliestBounds(spans, |spans|);
    }
  }

  lemma {:induction false} LatestBounds(spans: seq<Span>, upTo: nat)
    requires upTo <= |spans|
    ensures 0.0 <= Latest(spans, upTo) && forall i :: 0 <= i < upTo ==> spans[i].end <= Latest(spans, upTo)
    ensures Latest(spans, upTo) == 0.0 || exists i :: 0 <= i < upTo && spans[i].end == Latest(spans, upTo)
  {
    if upTo > 0 {
      LatestBounds(spans, upTo - 1);
      if Latest(spans, upTo) != Latest(spans, upTo - 1) {
        assert spans[upTo - 1].end == Latest(spans, upTo);
      }
    }
  }

  /** The scan finds the latest end exactly if something ends at time zero or later. */
  lemma LatestExactly(spans: seq<Span>)
    requires spans != []
    ensures IsLatest(spans, Latest(spans, |spans|)) <==> LatestIsSeen(spans)
  {
    LatestBounds(spans, |spans|);
    if LatestIsSeen(spans) && Latest(spans, |spans|) == 0.0 {
      var i :| 0 <= i < |spans| && 0.0 <= spans[i].end;
      assert spans[i].end == Latest(spans, |spans|);
    }
  }

  /** The first event is the earliest start and the last one the latest end. */
  lemma EventsSpanBuild(spans: seq<Span>, ev: seq<Event>)
    requires Arrangement(spans, ev) && spans != [] && ev != [] && AllForward(spans)
    ensures IsEarliest(spans, Times(ev)[0]) && IsLatest(spans, Times(ev)[|ev| - 1])
  {
    TimesAscend(ev);
    forall i | 0 <= i < |spans|
      ensures Times(ev)[0] <= spans[i].start && spans[i].end <= Times(ev)[|ev| - 1]
    {
      TimeWithin(spans, ev, StartOf(spans, i));
      TimeWithin(spans, ev, StopOf(spans, i));
    }
    var i, j := ev[0].task, ev[|ev| - 1].task;
    assert EventOf(spans, ev[0]) && EventOf(spans, ev[|ev| - 1]);
    assert spans[i].start == Times(ev)[0] && spans[j].end == Times(ev)[|ev| - 1];
  }

  lemma TimeWithin(spans: seq<Span>, ev: seq<Event>, e: Event)
    requires Arrangement(spans, ev) && ev != [] && EventOf(spans, e)
    ensures Times(ev)[0] <= e.time <= Times(ev)[|ev| - 1]
  {
    TimesAscend(ev);
    var k :| 0 <= k < |ev| && ev[k] == e;
    assert Times(ev)[k] == e.time;
  }

  /** When the scanned extent is the time between the first and the last event, for every log. */
  lemma ExtentIsElapsed(spans: seq<Span>, ev: seq<Event>)
    requires Arrangement(spans, ev) && spans != [] && ev != [] && AllForward(spans)
    ensures Earliest(spans, |spans|) == Times(ev)[0] <==> EarliestIsSeen(spans)
    ensures Latest(spans, |spans|) == Times(ev)[|ev| - 1] <==> LatestIsSeen(spans)
  {
    hide Arrangement, Times, Earliest, Latest;
    EventsSpanBuild(spans, ev);
    EarliestExactly(spans);
    LatestExactly(spans);
    assert forall x, y :: IsEarliest(spans, x) && IsEarliest(spans, y) ==> x == y;
    assert forall x, y :: IsLatest(spans, x) && IsLatest(spans, y) ==> x == y;
  }

  /**
    What the weighted total says about a build whose extent is seen: it never exceeds the build's
    length, and equals it exactly when some task is running at every moment.
   */
  lemma WeightedTotalAgainstLength(spans: seq<Span>, ev: seq<Event>)
    requires Arrangement(spans, ev) && spans != [] && ev != []
    requires AllForward(spans) && EarliestIsSeen(spans) && LatestIsSeen(spans)
    ensures var length := Latest(spans, |spans|) - Earliest(spans, |spans|);
            var total := ShareTotal(spans, Times(ev), |spans|, |ev|);
            && 0.0 <= total <= length
            && (total == length <==> NoIdleGap(spans, Times(ev), |ev|))
  {
    hide EarliestIsSeen, LatestIsSeen;
    ExtentIsElapsed(spans, ev);
    TimesAscend(ev);
    SharesAddUpToBusy(spans, Times(ev), |ev|);
    BusyAgainstElapsed(spans, Times(ev), |ev|);
  }

  /** The sweep's busy time is the length of the union of the spans, measured at any moments that contain their ends. */
  lemma SweepMeasuresUnion(spans: seq<Span>, ev: seq<Event>, times: seq<real>)
    requires Arrangement(spans, ev) && R.Sorted(times) && Contains(spans, times)
    ensures Busy(spans, Times(ev), |ev|) == Busy(spans, times, |times|)
  {
    TimesAscend(ev);
    forall i | 0 <= i < |spans|
      ensures spans[i].start in Times(ev) && spans[i].end in Times(ev)
    {
      TimeListed(spans, ev, StartOf(spans, i));
      TimeListed(spans, ev, StopOf(spans, i));
    }
    BusyIsUnionLength(spans, Times(ev), times);
  }

  /** The bound the code asserts on each weighted duration holds without any tolerance. */
  lemma WeightWithinDuration(spans: seq<Span>, ev: seq<Event>, task: nat)
    requires Arrangement(spans, ev) && AllForward(spans) && task < |spans|
    ensures 0.0 <= Share(spans, Times(ev), task, |ev|) <= spans[task].end - spans[task].start
  {
    TimesAscend(ev);
    TimeListed(spans, ev, StartOf(spans, task));
    TimeListed(spans, ev, StopOf(spans, task));
    ShareAtMostDuration(spans, Times(ev), task);
  }

  lemma TimeListed(spans: seq<Span>, ev: seq<Event>, e: Event)
    requires Arrangement(spans, ev) && EventOf(spans, e)
    ensures e.time in Times(ev)
  {
    var i :| 0 <= i < |ev| && ev[i] == e;
    assert Times(ev)[i] == e.time;
  }

  // ----- The program

  datatype Summary =
    | NoEntries
    | StopBeforeStart(task: nat)
    | Summary(length: real, weightedTotal: real, cpuTime: real)

  method Summarize(entries: seq<Target>) returns (r: Summary)
    requires forall i, j :: 0 <= i < j < |entries| ==> entries[i] != entries[j]
    modifies entries
    ensures r.NoEntries? <==> entries == []
    ensures r.Summary? <==> entries != [] && AllForward(SpansOf(entries))
    ensures r.StopBeforeStart? ==> r.task < |entries| && entries[r.task].end < entries[r.task].start
    ensures r.Summary? ==>
              var spans := SpansOf(entries);
              var times := Times(SortEvents(EventsUpTo(spans, |spans|)));
              && (forall i :: 0 <= i < |entries| ==> entries[i].weightedDuration == Share(spans, times, i, |times|))
              && r.weightedTotal == Busy(spans, times, |times|)
              && r.length == Latest(spans, |spans|) - Earliest(spans, |spans|)
              && r.cpuTime == CpuTime(spans, |spans|)
  {
    ghost var spans := SpansOf(entries);
    var listed: seq<Event> := [];
    var earliest, latest, cpu := -1.0, 0.0, 0.0;
    for i := 0 to |entries|
      invariant listed == EventsUpTo(spans, i)
      invariant earliest == Earliest(spans, i) && latest == Latest(spans, i) && cpu == CpuTime(spans, i)
    {
      var target := entries[i];
      if earliest < 0.0 || target.start < earliest {
        earliest := target.start;
      }
      if target.end > latest {
        latest := target.end;
      }
      cpu := cpu + (target.end - target.start);
      listed := listed + [Start(target.start, i), Stop(target.end, i)];
    }
    if entries == [] {
      return NoEntries;
    }
    var ev := SortEvents(listed);
    SortedArrangement(spans);
    var ok, task, total := Sweep(entries, ev);
    if !ok {
      return StopBeforeStart(task);
    }
    return Summary(latest - earliest, total, cpu);
  }

  method Sweep(entries: seq<Target>, ev: seq<Event>) returns (ok: bool, task: nat, total: real)
    requires forall i, j :: 0 <= i < j < |entries| ==> entries[i] != entries[j]
    requires entries != [] && Arrangement(SpansOf(entries), ev) && |ev| == 2 * |entries|
    modifies entries
    ensures ok <==> AllForward(SpansOf(entries))
    ensures !ok ==> task < |entries| && entries[task].end < entries[task].start
    ensures ok ==> total == Busy(SpansOf(entries), Times(ev), |ev|)
    ensures ok ==> forall i :: 0 <= i < |entries| ==>
                     entries[i].weightedDuration == Share(SpansOf(entries), Times(ev), i, |ev|)
  {
    hide SweepState, RateSum, Sum, Busy, Share, Times, AllForward, Arrangement, StopOf;
    ghost var spans := SpansOf(entries);
    var running: map<nat, real> := map[];
    ghost var weights := seq(|spans|, i => 0.0);
    var lastTime, level := ev[0].time, 0.0;
    total, ok, task := 0.0, true, 0;
    SweepStart(spans, ev);
    SumZero(|spans|);
    for k := 0 to |ev|
      invariant SweepState(spans, ev, k, running, weights) && |weights| == |spans|
      invariant level == RateSum(spans, Times(ev), k) && total == Sum(weights)
      invariant lastTime == if k == 0 then ev[0].time else ev[k - 1].time
      invariant forall i :: 0 <= i < |entries| && StopOf(spans, i) in ev[..k] ==> entries[i].weightedDuration == weights[i]
    {
      var event := ev[k];
      LevelStep(spans, ev, k, running, weights);
      ElapsedTime(ev, k);
      EventTask(spans, ev, k);
      if |running| > 0 {
        level := level + (event.time - lastTime) / |running| as real;
      }
      if event.Start? {
        StartStep(spans, ev, k, running, weights);
        running := running[event.task := level];
      } else {
        if event.task !in running {
          StopFindsTask(spans, ev, k, running, weights);
          NotForward(spans, event.task);
          ok, task := false, event.task;
          return;
        }
        StopStep(spans, ev, k, running, weights);
        var weighted := level - running[event.task];
        SumUpdate(weights, event.task, weighted);
        entries[event.task].weightedDuration := weighted;
        weights := weights[event.task := weighted];
        total := total + weighted;
        running := running - {event.task};
      }
      lastTime := event.time;
    }
    SweepEnd(spans, ev, running, weights);
    AllStopped(spans, ev);
  }

  lemma ElapsedTime(ev: seq<Event>, k: nat)
    requires k < |ev|
    ensures Elapsed(Times(ev), k) == ev[k].time - if k == 0 then ev[0].time else ev[k - 1].time
  {
  }

  lemma NotForward(spans: seq<Span>, task: nat)
    requires task < |spans| && spans[task].end < spans[task].start
    ensures !AllForward(spans)
  {
  }

  lemma AllStopped(spans: seq<Span>, ev: seq<Event>)
    requires Arrangement(spans, ev)
    ensures forall i :: 0 <= i < |spans| ==> StopOf(spans, i) in ev[..|ev|]
  {
    assert ev[..|ev|] == ev;
    assert forall i :: 0 <= i < |spans| ==> EventOf(spans, StopOf(spans, i));
  }

  lemma EventTask(spans: seq<Span>, ev: seq<Event>, k: nat)
    requires Arrangement(spans, ev) && k < |ev|
    ensures ev[k].task < |spans|
    ensures forall i :: 0 <= i < |spans| && StopOf(spans, i) in ev[..k + 1] ==>
              StopOf(spans, i) in ev[..k] || (ev[k].Stop? && i == ev[k].task)
  {
    assert EventOf(spans, ev[k]);
    assert ev[..k + 1] == ev[..k] + [ev[k]];
  }
}
