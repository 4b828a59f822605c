/**
  Merging the partial logs of several ranks.

  Each rank may have lost rows.  Rows are keyed by step, layer, request and row number, where the
  step of a row is how often the layer has dropped so far in its own rank; the first copy of a key
  is kept and later copies must agree with it.
 */
module LogMerge {
  import opened Orders
  import opened LogReconstruction
  import opened LogRoundTrip

  datatype Key = Key(step: nat, layer: nat, request: string, row: nat)

  predicate KeyLess(a: Key, b: Key) {
    || a.step < b.step
    || (a.step == b.step &&
        (|| a.layer < b.layer
         || (a.layer == b.layer &&
             (|| StringLess(a.request, b.request)
              || (a.request == b.request && a.row < b.row)))))
  }

  lemma KeyOrder()
    ensures StrictOrder(KeyLess)
  {
    StringOrder();
    forall a: Key, b: Key
      ensures a == b || KeyLess(a, b) || KeyLess(b, a)
    {
      hide StringLess;
      assert a.request == b.request || StringLess(a.request, b.request) || StringLess(b.request, a.request);
    }
    forall a: Key, b: Key, c: Key | KeyLess(a, b) && KeyLess(b, c)
      ensures KeyLess(a, c)
    {
      hide StringLess;
    }
  }

  datatype RankLog = RankLog(rank: nat, rows: seq<LogRow>)

  /** Times the layer has dropped up to row `i`. */
  function StepAt(rows: seq<LogRow>, i: nat): nat
    requires i < |rows|
  {
    if i == 0 then 0 else StepAt(rows, i - 1) + if rows[i].layer < rows[i - 1].layer then 1 else 0
  }

  function KeyAt(rows: seq<LogRow>, i: nat): Key
    requires i < |rows|
  {
    Key(StepAt(rows, i), rows[i].layer, rows[i].request, rows[i].row)
  }

  predicate Agree(a: LogRow, b: LogRow) {
    a.layerName == b.layerName && a.valid == b.valid && a.positions == b.positions
  }

  datatype Merge = Merged(rows: map<Key, LogRow>, used: set<nat>) | Conflict(key: Key)

  /** Folds the first `upTo` rows of a rank into the merge. */
  function MergeRank(before: Merge, log: RankLog, upTo: nat): Merge
    requires upTo <= |log.rows|
  {
    if upTo == 0 then before
    else
      var m := MergeRank(before, log, upTo - 1);
      if m.Conflict? then m
      else
        var key, row := KeyAt(log.rows, upTo - 1), log.rows[upTo - 1];
        if key !in m.rows then Merged(m.rows[key := row], m.used + {log.rank})
        else if !Agree(m.rows[key], row) then Conflict(key)
        else m
  }

  function MergeRanks(logs: seq<RankLog>, upTo: nat): Merge
    requires upTo <= |logs|
  {
    if upTo == 0 then Merged(map[], {})
    else MergeRank(MergeRanks(logs, upTo - 1), logs[upTo - 1], |logs[upTo - 1].rows|)
  }

  function RowsFor(keys: seq<Key>, rows: map<Key, LogRow>): seq<LogRow>
    requires forall k :: k in keys ==> k in rows
  {
    seq(|keys|, i requires 0 <= i < |keys| => rows[keys[i]])
  }

  /** The merged rows in key order. */
  function MergedRows(rows: map<Key, LogRow>): seq<LogRow> {
    KeyOrder();
    RowsFor(Sorted(rows.Keys, KeyLess), rows)
  }

  // ----- Partial logs of one trace

  /** The row `e` is the one with key `k` in the trace. */
  ghost predicate Occurs(trace: seq<Step>, k: Key, e: LogRow) {
    && k.step < |trace| && k.layer < |trace[k.step]| && e in trace[k.step][k.layer]
    && e.layer == k.layer && e.request == k.request && e.row == k.row
  }

  ghost predicate RealTrace(trace: seq<Step>, layers: nat) {
    && WellFormedTrace(trace, layers)
    && (forall s, l, e :: 0 <= s < |trace| && 0 <= l < |trace[s]| && e in trace[s][l] ==> e.request != PLACEHOLDER)
  }

  /** `steps[i]` is the step that row `i` of the rank's log comes from; every step boundary shows as a drop of the layer. */
  ghost predicate PartialLog(trace: seq<Step>, rows: seq<LogRow>, steps: seq<nat>) {
    && |steps| == |rows| && (rows != [] ==> steps[0] == 0)
    && (forall i :: 0 <= i < |rows| ==> Occurs(trace, Key(steps[i], rows[i].layer, rows[i].request, rows[i].row), rows[i]))
    && (forall i :: 0 < i < |rows| ==>
          if rows[i].layer < rows[i - 1].layer then steps[i] == steps[i - 1] + 1 else steps[i] == steps[i - 1])
  }

  lemma {:induction false} StepsRecovered(trace: seq<Step>, rows: seq<LogRow>, steps: seq<nat>, i: nat)
    requires PartialLog(trace, rows, steps) && i < |rows|
    ensures StepAt(rows, i) == steps[i]
  {
    if i > 0 {
      StepsRecovered(trace, rows, steps, i - 1);
    }
  }

  /** A key names at most one row of a trace. */
  lemma KeyNamesOneRow(trace: seq<Step>, layers: nat, k: Key, a: LogRow, b: LogRow)
    requires RealTrace(trace, layers) && Occurs(trace, k, a) && Occurs(trace, k, b)
    ensures a == b
  {
    hide OneName;
    var block := trace[k.step][k.layer];
    assert WellFormedStep(trace[k.step], layers);
    assert WellFormedLayer(trace[k.step], k.layer);
    assert k.request in Requests(block);
    RequestRowsMembers(block, k.request);
    SameRowNumber(RequestRows(block, k.request), a, b);
  }

  lemma SameRowNumber(rows: seq<LogRow>, a: LogRow, b: LogRow)
    requires !RowRepeated(rows) && a in rows && b in rows && a.row == b.row
    ensures a == b
  {
  }

  ghost predicate OnlyTraceRows(trace: seq<Step>, rows: map<Key, LogRow>) {
    forall k :: k in rows ==> Occurs(trace, k, rows[k])
  }

  /** Merging a partial log adds rows of the trace and never meets a conflict. */
  lemma {:induction false} MergeRankKeeps(trace: seq<Step>, layers: nat, before: Merge, log: RankLog, steps: seq<nat>, upTo: nat)
    requires RealTrace(trace, layers) && PartialLog(trace, log.rows, steps) && upTo <= |log.rows|
    requires before.Merged? && OnlyTraceRows(trace, before.rows)
    ensures var m := MergeRank(before, log, upTo);
            && m.Merged? && OnlyTraceRows(trace, m.rows)
            && (forall k :: k in before.rows ==> k in m.rows)
            && (forall i :: 0 <= i < upTo ==> KeyAt(log.rows, i) in m.rows)
  {
    hide WellFormedTrace, StepAt;
    if upTo > 0 {
      var i := upTo - 1;
      MergeRankKeeps(trace, layers, before, log, steps, i);
      StepsRecovered(trace, log.rows, steps, i);
      var m := MergeRank(before, log, i);
      var key := KeyAt(log.rows, i);
      assert Occurs(trace, key, log.rows[i]);
      if key in m.rows {
        KeyNamesOneRow(trace, layers, key, m.rows[key], log.rows[i]);
      }
    }
  }

  ghost predicate PartialLogs(trace: seq<Step>, logs: seq<RankLog>, steps: seq<seq<nat>>) {
    |steps| == |logs| && forall r :: 0 <= r < |logs| ==> PartialLog(trace, logs[r].rows, steps[r])
  }

  /** Row `e` of the trace, with key `k`, is in some rank's log. */
  ghost predicate Logged(logs: seq<RankLog>, steps: seq<seq<nat>>, upTo: nat, k: Key) {
    exists r, i :: 0 <= r < upTo <= |logs| == |steps| && 0 <= i < |logs[r].rows| == |steps[r]|
                   && k == Key(steps[r][i], logs[r].rows[i].layer, logs[r].rows[i].request, logs[r].rows[i].row)
  }

  lemma {:induction false} MergeRanksKeep(trace: seq<Step>, layers: nat, logs: seq<RankLog>, steps: seq<seq<nat>>, upTo: nat)
    requires RealTrace(trace, layers) && PartialLogs(trace, logs, steps) && upTo <= |logs|
    ensures var m := MergeRanks(logs, upTo);
            && m.Merged? && OnlyTraceRows(trace, m.rows)
            && (forall k :: Logged(logs, steps, upTo, k) ==> k in m.rows)
  {
    hide RealTrace, Occurs, PartialLog, MergeRank;
    if upTo > 0 {
      var r := upTo - 1;
      MergeRanksKeep(trace, layers, logs, steps, r);
      var before := MergeRanks(logs, r);
      MergeRankKeeps(trace, layers, before, logs[r], steps[r], |logs[r].rows|);
      forall k | Logged(logs, steps, upTo, k)
        ensures k in MergeRanks(logs, upTo).rows
      {
        var q, i :| 0 <= q < upTo && 0 <= i < |logs[q].rows| == |steps[q]|
                    && k == Key(steps[q][i], logs[q].rows[i].layer, logs[q].rows[i].request, logs[q].rows[i].row);
        if q == r {
          StepsRecovered(trace, logs[r].rows, steps[r], i);
          assert k == KeyAt(logs[r].rows, i);
        } else {
          assert Logged(logs, steps, r, k);
        }
      }
    }
  }

  // ----- The merged rows are the trace, each layer in key order

  ghost function BlockKeys(trace: seq<Step>, s: nat, l: nat): set<Key>
    requires s < |trace| && l < |trace[s]|
  {
    set e | e in trace[s][l] :: Key(s, l, e.request, e.row)
  }

  ghost function BlockOrder(trace: seq<Step>, s: nat, l: nat): (keys: seq<Key>)
    requires s < |trace| && l < |trace[s]|
    ensures Climbs(keys, KeyLess) && forall k :: k in keys <==> k in BlockKeys(trace, s, l)
  {
    KeyOrder();
    Sorted(BlockKeys(trace, s, l), KeyLess)
  }

  /** Keys of the first `upTo` layers of step `s`, layer by layer. */
  ghost function StepKeys(trace: seq<Step>, s: nat, upTo: nat): seq<Key>
    requires s < |trace| && upTo <= |trace[s]|
  {
    if upTo == 0 then [] else StepKeys(trace, s, upTo - 1) + BlockOrder(trace, s, upTo - 1)
  }

  ghost function TraceKeys(trace: seq<Step>, upTo: nat): seq<Key>
    requires upTo <= |trace|
  {
    if upTo == 0 then [] else TraceKeys(trace, upTo - 1) + StepKeys(trace, upTo - 1, |trace[upTo - 1]|)
  }

  lemma ClimbsConcat(a: seq<Key>, b: seq<Key>)
    requires Climbs(a, KeyLess) && Climbs(b, KeyLess)
    requires forall x, y :: x in a && y in b ==> KeyLess(x, y)
    ensures Climbs(a + b, KeyLess)
  {
    hide KeyLess;
    forall i, j | 0 <= i < j < |a + b|
      ensures KeyLess((a + b)[i], (a + b)[j])
    {
      if i < |a| <= j {
        assert a[i] in a && b[j - |a|] in b;
      }
    }
  }

  lemma BlockKeysMembers(trace: seq<Step>, s: nat, l: nat)
    requires s < |trace| && l < |trace[s]|
    ensures forall k :: k in BlockOrder(trace, s, l) ==> k.step == s && k.layer == l
    ensures forall k :: k in BlockOrder(trace, s, l) <==>
              exists e :: e in trace[s][l] && k == Key(s, l, e.request, e.row)
  {
  }

  lemma NoKeysClimb()
    ensures Climbs([], KeyLess)
  {
  }

  lemma {:induction false} StepKeysClimb(trace: seq<Step>, s: nat, upTo: nat)
    requires s < |trace| && upTo <= |trace[s]|
    ensures Climbs(StepKeys(trace, s, upTo), KeyLess)
    ensures forall k :: k in StepKeys(trace, s, upTo) ==> k.step == s && k.layer < upTo
    ensures forall k :: k in StepKeys(trace, s, upTo) <==> k.step == s && k.layer < upTo && k in BlockKeys(trace, s, k.layer)
  {
    hide BlockKeys, StringLess, Climbs;
    if upTo == 0 {
      NoKeysClimb();
    } else {
      StepKeysClimb(trace, s, upTo - 1);
      BlockKeysMembers(trace, s, upTo - 1);
      var before, here := StepKeys(trace, s, upTo - 1), BlockOrder(trace, s, upTo - 1);
      ClimbsConcat(before, here);
      assert forall k :: k in before + here <==> k in before || k in here;
    }
  }

  lemma {:induction false} TraceKeysClimb(trace: seq<Step>, upTo: nat)
    requires upTo <= |trace|
    ensures Climbs(TraceKeys(trace, upTo), KeyLess)
    ensures forall k :: k in TraceKeys(trace, upTo) ==> k.step < upTo
    ensures forall k :: k in TraceKeys(trace, upTo) <==>
              k.step < upTo && k.layer < |trace[k.step]| && k in BlockKeys(trace, k.step, k.layer)
  {
    hide BlockKeys, StepKeys, StringLess;
    if upTo > 0 {
      var s := upTo - 1;
      TraceKeysClimb(trace, s);
      StepKeysClimb(trace, s, |trace[s]|);
      var before, here := TraceKeys(trace, s), StepKeys(trace, s, |trace[s]|);
      ClimbsConcat(before, here);
      assert forall k :: k in before + here <==> k in before || k in here;
    }
  }

  // ----- Same trace, rows of a layer in another order

  ghost predicate SameBlocks(a: seq<Step>, b: seq<Step>) {
    && |a| == |b| && (forall s :: 0 <= s < |a| ==> |a[s]| == |b[s]|)
    && (forall s, l, e :: 0 <= s < |a| && 0 <= l < |a[s]| ==> (e in a[s][l] <==> e in b[s][l]))
  }

  lemma SameRecord(a: seq<LogRow>, b: seq<LogRow>, request: string, n: nat, layer: nat)
    requires a != [] && b != [] && OneName(a) && OneName(b) && forall e :: e in a <==> e in b
    ensures ExpectedRecord(a, request, n, layer) == ExpectedRecord(b, request, n, layer)
    ensures Requests(a) == Requests(b)
  {
    assert RowsOf(a, request) == RowsOf(b, request);
    assert b[0] in a;
  }

  lemma {:induction false} SameSteps(a: seq<Step>, b: seq<Step>, layers: nat, s: nat, request: string)
    requires WellFormedTrace(a, layers) && WellFormedTrace(b, layers) && SameBlocks(a, b) && s <= |a|
    ensures StepsSeen(a, s, request) == StepsSeen(b, s, request)
  {
    hide WellFormedLayer, SameBlocks, Requests, OneName;
    if s > 0 {
      SameSteps(a, b, layers, s - 1, request);
      assert WellFormedStep(a[s - 1], layers);
      SameLayer(a, b, layers, s - 1, 0);
    }
  }

  lemma SameLayer(a: seq<Step>, b: seq<Step>, layers: nat, s: nat, l: nat)
    requires WellFormedTrace(a, layers) && WellFormedTrace(b, layers) && SameBlocks(a, b) && s < |a| && l < layers
    ensures |a[s]| == |b[s]| == layers && a[s][l] != [] && b[s][l] != []
    ensures OneName(a[s][l]) && OneName(b[s][l]) && Requests(a[s][l]) == Requests(b[s][l])
    ensures forall e :: e in a[s][l] <==> e in b[s][l]
  {
    hide OneName, RepeatsRow;
    assert WellFormedStep(a[s], layers) && WellFormedStep(b[s], layers);
    assert WellFormedLayer(a[s], l) && WellFormedLayer(b[s], l);
  }

  lemma SameRequest(a: seq<Step>, b: seq<Step>, layers: nat, s: nat, request: string, n: nat)
    requires WellFormedTrace(a, layers) && WellFormedTrace(b, layers) && SameBlocks(a, b) && s < |a|
    ensures ExpectedRequest(a[s], request, n) == ExpectedRequest(b[s], request, n)
  {
    hide OneName, ExpectedRecord, WellFormedLayer, Requests;
    forall l | 0 <= l < layers
      ensures a[s][l] != [] && b[s][l] != []
      ensures ExpectedRecord(a[s][l], request, n, l) == ExpectedRecord(b[s][l], request, n, l)
    {
      SameLayer(a, b, layers, s, l);
      SameRecord(a[s][l], b[s][l], request, n, l);
    }
    assert WellFormedStep(a[s], layers) && WellFormedStep(b[s], layers);
  }

  lemma {:induction false} SameStep(a: seq<Step>, b: seq<Step>, layers: nat, s: nat, order: seq<string>, upTo: nat)
    requires WellFormedTrace(a, layers) && WellFormedTrace(b, layers) && SameBlocks(a, b) && s < |a| && upTo <= |order|
    ensures ExpectedStep(a, layers, s, order, upTo) == ExpectedStep(b, layers, s, order, upTo)
  {
    hide ExpectedRequest, WellFormedLayer, SameBlocks, Requests;
    if upTo > 0 {
      SameStep(a, b, layers, s, order, upTo - 1);
      SameSteps(a, b, layers, s, order[upTo - 1]);
      SameRequest(a, b, layers, s, order[upTo - 1], StepsSeen(a, s, order[upTo - 1]));
    }
  }

  /** What a trace means does not depend on the order of rows within a layer. */
  lemma {:induction false} RowOrderIsInvisible(a: seq<Step>, b: seq<Step>, layers: nat, upTo: nat)
    requires WellFormedTrace(a, layers) && WellFormedTrace(b, layers) && SameBlocks(a, b) && upTo <= |a| == |b|
    ensures Expected(a, layers, upTo) == Expected(b, layers, upTo)
  {
    hide ExpectedStep, WellFormedStep, SameBlocks, Requests, Expected, Sorted, StringLess, OneName;
    if upTo == 0 {
      NothingExpected(a, layers);
      NothingExpected(b, layers);
    } else {
      var s := upTo - 1;
      RowOrderIsInvisible(a, b, layers, s);
      NextExpected(a, layers, s);
      NextExpected(b, layers, s);
      SameLayer(a, b, layers, s, 0);
      var order := SortStrings(Requests(a[s][0]));
      SameStep(a, b, layers, s, order, |order|);
    }
  }
}
