/** Merging the partial logs of a trace and reconstructing gives the trace back. */
module LogMergeRoundTrip {
  import opened Options
  import opened Orders
  import opened LogReconstruction
  import opened LogRoundTrip
  import opened LogMerge
  import opened LogRanks
  import opened SortedSets

  /** The merged rows are the rows of the trace, all of them. */
  ghost predicate Complete(trace: seq<Step>, rows: map<Key, LogRow>) {
    && OnlyTraceRows(trace, rows)
    && (forall s, l :: 0 <= s < |trace| && 0 <= l < |trace[s]| ==> forall k :: k in BlockKeys(trace, s, l) ==> k in rows)
  }

  ghost function SortedBlock(trace: seq<Step>, rows: map<Key, LogRow>, s: nat, l: nat): seq<LogRow>
    requires Complete(trace, rows) && s < |trace| && l < |trace[s]|
  {
    RowsFor(BlockOrder(trace, s, l), rows)
  }

  ghost function SortedStep(trace: seq<Step>, rows: map<Key, LogRow>, s: nat): Step
    requires Complete(trace, rows) && s < |trace|
  {
    seq(|trace[s]|, l requires 0 <= l < |trace[s]| => SortedBlock(trace, rows, s, l))
  }

  ghost function SortedTrace(trace: seq<Step>, rows: map<Key, LogRow>): seq<Step>
    requires Complete(trace, rows)
  {
    seq(|trace|, s requires 0 <= s < |trace| => SortedStep(trace, rows, s))
  }

  // ----- The merged rows, flattened

  lemma RowsForConcat(a: seq<Key>, b: seq<Key>, rows: map<Key, LogRow>)
    requires (forall k :: k in a ==> k in rows) && (forall k :: k in b ==> k in rows)
    ensures forall k :: k in a + b ==> k in rows
    ensures RowsFor(a + b, rows) == RowsFor(a, rows) + RowsFor(b, rows)
  {
  }

  lemma SortedStepAt(trace: seq<Step>, rows: map<Key, LogRow>, s: nat, l: nat)
    requires Complete(trace, rows) && s < |trace| && l < |trace[s]|
    ensures forall k :: k in BlockOrder(trace, s, l) ==> k in rows
    ensures |SortedStep(trace, rows, s)| == |trace[s]|
    ensures SortedStep(trace, rows, s)[l] == RowsFor(BlockOrder(trace, s, l), rows)
  {
    hide BlockKeys, OnlyTraceRows, KeyLess;
  }

  lemma {:induction false} StepRows(trace: seq<Step>, rows: map<Key, LogRow>, s: nat, upTo: nat)
    requires Complete(trace, rows) && s < |trace| && upTo <= |trace[s]|
    ensures forall k :: k in StepKeys(trace, s, upTo) ==> k in rows
    ensures RowsFor(StepKeys(trace, s, upTo), rows) == FlatStep(SortedStep(trace, rows, s), upTo)
  {
    hide Complete, KeyLess, SortedStep, BlockOrder;
    SortedStepLength(trace, rows, s);
    if upTo > 0 {
      StepRows(trace, rows, s, upTo - 1);
      SortedStepAt(trace, rows, s, upTo - 1);
      RowsForConcat(StepKeys(trace, s, upTo - 1), BlockOrder(trace, s, upTo - 1), rows);
    }
  }

  lemma {:induction false} TraceRows(trace: seq<Step>, rows: map<Key, LogRow>, upTo: nat)
    requires Complete(trace, rows) && upTo <= |trace|
    ensures forall k :: k in TraceKeys(trace, upTo) ==> k in rows
    ensures RowsFor(TraceKeys(trace, upTo), rows) == FlatTrace(SortedTrace(trace, rows), upTo)
  {
    hide Complete, KeyLess, FlatStep, StepKeys, SortedStep;
    if upTo > 0 {
      var s := upTo - 1;
      TraceRows(trace, rows, s);
      StepRows(trace, rows, s, |trace[s]|);
      SortedStepLength(trace, rows, s);
      RowsForConcat(TraceKeys(trace, s), StepKeys(trace, s, |trace[s]|), rows);
    }
  }

  lemma SortedStepLength(trace: seq<Step>, rows: map<Key, LogRow>, s: nat)
    requires Complete(trace, rows) && s < |trace|
    ensures |SortedStep(trace, rows, s)| == |trace[s]|
  {
  }

  lemma MergedRowsAreFlat(trace: seq<Step>, rows: map<Key, LogRow>)
    requires Complete(trace, rows)
    ensures MergedRows(rows) == FlatTrace(SortedTrace(trace, rows), |trace|)
  {
    hide KeyLess, SortedTrace, FlatTrace;
    KeyOrder();
    TraceKeysClimb(trace, |trace|);
    TraceRows(trace, rows, |trace|);
    var keys := TraceKeys(trace, |trace|);
    forall k
      ensures k in keys <==> k in rows.Keys
    {
      if k in rows {
        assert Occurs(trace, k, rows[k]);
      }
    }
    SortedUnique(keys, rows.Keys, KeyLess);
  }

  // ----- The sorted trace is the same trace

  lemma SortedBlockMembers(trace: seq<Step>, layers: nat, rows: map<Key, LogRow>, s: nat, l: nat)
    requires RealTrace(trace, layers) && Complete(trace, rows) && s < |trace| && l < |trace[s]|
    ensures forall e :: e in SortedBlock(trace, rows, s, l) <==> e in trace[s][l]
  {
    hide RealTrace, KeyLess;
    var keys, block := BlockOrder(trace, s, l), SortedBlock(trace, rows, s, l);
    forall i | 0 <= i < |block|
      ensures block[i] in trace[s][l]
    {
      assert keys[i] in keys;
      assert Occurs(trace, keys[i], rows[keys[i]]);
    }
    forall e | e in trace[s][l]
      ensures e in block
    {
      LayerOf(trace, layers, s, l, e);
      var k := Key(s, l, e.request, e.row);
      assert k in BlockKeys(trace, s, l);
      assert k in keys;
      var i :| 0 <= i < |keys| && keys[i] == k;
      KeyNamesOneRow(trace, layers, k, rows[k], e);
      assert block[i] == e;
    }
  }

  lemma LayerOf(trace: seq<Step>, layers: nat, s: nat, l: nat, e: LogRow)
    requires RealTrace(trace, layers) && s < |trace| && l < |trace[s]| && e in trace[s][l]
    ensures e.layer == l && e.request != PLACEHOLDER && |trace[s]| == layers
  {
    assert WellFormedStep(trace[s], layers);
    assert WellFormedLayer(trace[s], l);
  }

  /** Rows that differ pairwise in request or row number contain no repeated row of a request. */
  lemma {:induction false} DistinctRowsDoNotRepeat(entries: seq<LogRow>, request: string)
    requires forall i, j :: 0 <= i < j < |entries| ==> entries[i].request != entries[j].request || entries[i].row != entries[j].row
    ensures !RowRepeated(RequestRows(entries, request))
  {
    if entries != [] {
      var k := |entries| - 1;
      DistinctRowsDoNotRepeat(entries[..k], request);
      RequestRowsMembers(entries[..k], request);
      var front := RequestRows(entries[..k], request);
      assert forall i :: 0 <= i < |front| ==> front[i] in entries[..k];
    }
  }

  lemma SortedBlockDistinct(trace: seq<Step>, rows: map<Key, LogRow>, s: nat, l: nat)
    requires Complete(trace, rows) && s < |trace| && l < |trace[s]|
    ensures !RepeatsRow(SortedBlock(trace, rows, s, l))
  {
    hide StringLess, RequestRows, RowRepeated;
    KeyOrder();
    var keys, block := BlockOrder(trace, s, l), SortedBlock(trace, rows, s, l);
    forall i, j | 0 <= i < j < |block|
      ensures block[i].request != block[j].request || block[i].row != block[j].row
    {
      assert keys[i] in keys && keys[j] in keys;
      assert Occurs(trace, keys[i], rows[keys[i]]) && Occurs(trace, keys[j], rows[keys[j]]);
      assert KeyLess(keys[i], keys[j]);
    }
    forall q | q in Requests(block)
      ensures !RowRepeated(RequestRows(block, q))
    {
      DistinctRowsDoNotRepeat(block, q);
    }
  }

  lemma SameNames(a: seq<LogRow>, b: seq<LogRow>)
    requires OneName(a) && forall e :: e in b ==> e in a
    ensures OneName(b)
  {
    forall i, j | 0 <= i < j < |b|
      ensures b[i].layerName == b[j].layerName
    {
      assert b[i] in b && b[j] in b;
    }
  }

  lemma SameRequests(a: seq<LogRow>, b: seq<LogRow>)
    requires forall e :: e in a <==> e in b
    ensures Requests(a) == Requests(b) && (a == [] <==> b == [])
  {
    assert |a| > 0 ==> a[0] in b;
    assert |b| > 0 ==> b[0] in a;
  }

  lemma SortedLayerWellFormed(trace: seq<Step>, layers: nat, rows: map<Key, LogRow>, s: nat, l: nat)
    requires RealTrace(trace, layers) && Complete(trace, rows) && s < |trace| && l < layers
    ensures var step := SortedStep(trace, rows, s);
            && |step| == |trace[s]| == layers && step[l] != []
            && Requests(step[l]) == Requests(trace[s][l]) && WellFormedLayer(step, l)
  {
    hide RepeatsRow, OneName, Requests, Complete, SortedBlock;
    assert WellFormedStep(trace[s], layers);
    assert WellFormedLayer(trace[s], l) && WellFormedLayer(trace[s], 0);
    SortedBlockMembers(trace, layers, rows, s, l);
    SortedBlockMembers(trace, layers, rows, s, 0);
    SortedBlockDistinct(trace, rows, s, l);
    SameNames(trace[s][l], SortedBlock(trace, rows, s, l));
    SameRequests(trace[s][l], SortedBlock(trace, rows, s, l));
    SameRequests(trace[s][0], SortedBlock(trace, rows, s, 0));
  }

  lemma SortedTraceWellFormed(trace: seq<Step>, layers: nat, rows: map<Key, LogRow>)
    requires RealTrace(trace, layers) && Complete(trace, rows)
    ensures WellFormedTrace(SortedTrace(trace, rows), layers)
    ensures SameBlocks(trace, SortedTrace(trace, rows))
  {
    hide WellFormedLayer, Requests, Complete, SortedBlock;
    var sorted := SortedTrace(trace, rows);
    forall s | 0 <= s < |trace|
      ensures WellFormedStep(sorted[s], layers) && |trace[s]| == layers
    {
      assert WellFormedStep(trace[s], layers);
      forall l | 0 <= l < layers
        ensures sorted[s][l] != [] && WellFormedLayer(sorted[s], l) && Requests(sorted[s][l]) == Requests(trace[s][l])
      {
        SortedLayerWellFormed(trace, layers, rows, s, l);
      }
    }
    forall s, l, e | 0 <= s < |trace| && 0 <= l < |trace[s]|
      ensures e in trace[s][l] <==> e in sorted[s][l]
    {
      SortedBlockMembers(trace, layers, rows, s, l);
    }
  }

  // ----- The theorem

  lemma MergeIsComplete(trace: seq<Step>, layers: nat, logs: seq<RankLog>, ats: seq<seq<nat>>)
    requires RealTrace(trace, layers) && RankParts(trace, logs, ats) && AllPicked(trace, ats)
    ensures MergeRanks(logs, |logs|).Merged? && Complete(trace, MergeRanks(logs, |logs|).rows)
  {
    hide MergeRanks, PartialLogs, Logged, WellFormedTrace, RankParts, AllPicked;
    PartsArePartialLogs(trace, layers, logs, ats);
    var steps := AllSteps(trace, logs, ats);
    MergeRanksKeep(trace, layers, logs, steps, |logs|);
    forall s, l, e | 0 <= s < |trace| && 0 <= l < |trace[s]| && e in trace[s][l]
      ensures Logged(logs, steps, |logs|, Key(s, l, e.request, e.row))
    {
      RowIsLogged(trace, layers, logs, ats, s, l, e);
    }
  }

  // ----- Each row once

  lemma {:induction false} SameMultiset<T>(a: seq<T>, b: seq<T>)
    requires NoDuplicates(a) && NoDuplicates(b) && forall x :: x in a <==> x in b
    ensures multiset(a) == multiset(b)
  {
    forall x
      ensures multiset(a)[x] == multiset(b)[x]
    {
      CountedOnce(a, x);
      CountedOnce(b, x);
    }
  }

  lemma {:induction false} CountedOnce<T>(s: seq<T>, x: T)
    requires NoDuplicates(s)
    ensures multiset(s)[x] == if x in s then 1 else 0
  {
    if s != [] {
      var k := |s| - 1;
      assert s == s[..k] + [s[k]];
      CountedOnce(s[..k], x);
    }
  }

  lemma BlocksAreSameRows(trace: seq<Step>, layers: nat, rows: map<Key, LogRow>, s: nat, l: nat)
    requires RealTrace(trace, layers) && Complete(trace, rows) && s < |trace| && l < |trace[s]|
    ensures multiset(SortedBlock(trace, rows, s, l)) == multiset(trace[s][l])
  {
    hide WellFormedTrace, SortedBlock, Complete;
    SortedBlockMembers(trace, layers, rows, s, l);
    BlockHasNoDuplicates(trace, layers, s, l);
    SortedHasNoDuplicates(trace, rows, s, l);
    SameMultiset(SortedBlock(trace, rows, s, l), trace[s][l]);
  }

  lemma SortedHasNoDuplicates(trace: seq<Step>, rows: map<Key, LogRow>, s: nat, l: nat)
    requires Complete(trace, rows) && s < |trace| && l < |trace[s]|
    ensures NoDuplicates(SortedBlock(trace, rows, s, l))
  {
    hide StringLess;
    KeyOrder();
    var keys, block := BlockOrder(trace, s, l), SortedBlock(trace, rows, s, l);
    forall i, j | 0 <= i < j < |block|
      ensures block[i] != block[j]
    {
      assert keys[i] in keys && keys[j] in keys;
      assert Occurs(trace, keys[i], rows[keys[i]]) && Occurs(trace, keys[j], rows[keys[j]]);
      assert KeyLess(keys[i], keys[j]);
    }
  }

  lemma BlockHasNoDuplicates(trace: seq<Step>, layers: nat, s: nat, l: nat)
    requires RealTrace(trace, layers) && s < |trace| && l < |trace[s]|
    ensures NoDuplicates(trace[s][l])
  {
    hide OneName, RequestRows, Requests, RowRepeated;
    var block := trace[s][l];
    assert WellFormedStep(trace[s], layers);
    assert WellFormedLayer(trace[s], l);
    forall i, j | 0 <= i < j < |block|
      ensures block[i] != block[j]
    {
      if block[i] == block[j] {
        assert block[i] in block;
        RequestListed(block, block[i]);
        TwiceRepeats(block, i, j);
      }
    }
  }

  /** A row that stands twice in a block is a repeated row of its request. */
  lemma {:induction false} TwiceRepeats(block: seq<LogRow>, i: nat, j: nat)
    requires i < j < |block| && block[i] == block[j]
    ensures RowRepeated(RequestRows(block, block[i].request))
  {
    var k, q := |block| - 1, block[i].request;
    var front := RequestRows(block[..k], q);
    if j < k {
      TwiceRepeats(block[..k], i, j);
      var a, b :| 0 <= a < b < |front| && front[a].row == front[b].row;
      assert RequestRows(block, q)[a].row == RequestRows(block, q)[b].row;
    } else {
      RequestRowsMembers(block[..k], q);
      assert block[..k][i] in block[..k];
      var a :| 0 <= a < |front| && front[a] == block[i];
      assert RequestRows(block, q)[a].row == RequestRows(block, q)[|front|].row;
    }
  }

  lemma {:induction false} StepsAreSameRows(trace: seq<Step>, layers: nat, rows: map<Key, LogRow>, s: nat, upTo: nat)
    requires RealTrace(trace, layers) && Complete(trace, rows) && s < |trace| && upTo <= |trace[s]|
    ensures |SortedStep(trace, rows, s)| == |trace[s]|
    ensures multiset(FlatStep(SortedStep(trace, rows, s), upTo)) == multiset(FlatStep(trace[s], upTo))
  {
    hide RealTrace, Complete, SortedBlock;
    SortedStepLength(trace, rows, s);
    if upTo > 0 {
      StepsAreSameRows(trace, layers, rows, s, upTo - 1);
      BlocksAreSameRows(trace, layers, rows, s, upTo - 1);
      assert SortedStep(trace, rows, s)[upTo - 1] == SortedBlock(trace, rows, s, upTo - 1);
    }
  }

  lemma {:induction false} TracesAreSameRows(trace: seq<Step>, layers: nat, rows: map<Key, LogRow>, upTo: nat)
    requires RealTrace(trace, layers) && Complete(trace, rows) && upTo <= |trace|
    ensures multiset(FlatTrace(SortedTrace(trace, rows), upTo)) == multiset(FlatTrace(trace, upTo))
  {
    hide RealTrace, Complete, SortedStep, FlatStep, FlatTrace, SortedTrace;
    if upTo > 0 {
      TracesAreSameRows(trace, layers, rows, upTo - 1);
      StepsAreSameRows(trace, layers, rows, upTo - 1, |trace[upTo - 1]|);
      SortedTraceAt(trace, rows, upTo - 1);
      NextFlatTrace(trace, upTo - 1);
      NextFlatTrace(SortedTrace(trace, rows), upTo - 1);
    } else {
      NoStepCycles(trace);
      NoStepCycles(SortedTrace(trace, rows));
    }
  }

  lemma SortedTraceAt(trace: seq<Step>, rows: map<Key, LogRow>, s: nat)
    requires Complete(trace, rows) && s < |trace|
    ensures |SortedTrace(trace, rows)| == |trace| && SortedTrace(trace, rows)[s] == SortedStep(trace, rows, s)
  {
    hide SortedStep, Complete;
  }

  /**
    If each rank logged part of one trace in order, showing its step boundaries, and no row is
    missing from all of them, then merging finds no conflict and keeps each row of the trace once,
    and reconstruction returns what the trace means.
   */
  lemma MergeThenReconstruct(trace: seq<Step>, layers: nat, logs: seq<RankLog>, ats: seq<seq<nat>>)
    requires RealTrace(trace, layers) && layers >= 2
    requires RankParts(trace, logs, ats) && AllPicked(trace, ats)
    ensures var m := MergeRanks(logs, |logs|);
            && m.Merged?
            && multiset(MergedRows(m.rows)) == multiset(FlatTrace(trace, |trace|))
            && Reconstruct(MergedRows(m.rows), layers) == Ok(Expected(trace, layers, |trace|))
  {
    hide MergeRanks, RankParts, AllPicked, SortedTrace, Expected, Reconstruct, MergedRows, WellFormedTrace, FlatTrace;
    MergeIsComplete(trace, layers, logs, ats);
    var rows := MergeRanks(logs, |logs|).rows;
    var sorted := SortedTrace(trace, rows);
    SortedTraceWellFormed(trace, layers, rows);
    MergedRowsAreFlat(trace, rows);
    TracesAreSameRows(trace, layers, rows, |trace|);
    ReconstructionInvertsFlattening(sorted, layers);
    RowOrderIsInvisible(trace, sorted, layers, |trace|);
  }

  // ----- The merge as the loops that perform it

  method MergePartialRanks(logs: seq<RankLog>) returns (m: Merge, ordered: seq<LogRow>)
    ensures m == MergeRanks(logs, |logs|)
    ensures m.Merged? ==> ordered == MergedRows(m.rows)
  {
    hide *;
    var rows: map<Key, LogRow> := map[];
    var used: set<nat> := {};
    ordered := [];
    NoRanks(logs);
    for r := 0 to |logs|
      invariant MergeRanks(logs, r) == Merged(rows, used)
    {
      var one := MergeOneRank(rows, used, logs[r]);
      NextRank(logs, r);
      if one.Conflict? {
        ConflictStays(logs, r + 1, |logs|);
        return one, [];
      }
      rows, used := one.rows, one.used;
    }
    return Merged(rows, used), MergedRows(rows);
  }

  method MergeOneRank(rows0: map<Key, LogRow>, used0: set<nat>, log: RankLog) returns (m: Merge)
    ensures m == MergeRank(Merged(rows0, used0), log, |log.rows|)
  {
    var rows, used := rows0, used0;
    var step := 0;
    var previous: Option<nat> := None;
    for i := 0 to |log.rows|
      invariant MergeRank(Merged(rows0, used0), log, i) == Merged(rows, used)
      invariant previous == if i == 0 then None else Some(log.rows[i - 1].layer)
      invariant step == if i == 0 then 0 else StepAt(log.rows, i - 1)
    {
      var row := log.rows[i];
      if previous.Some? && row.layer < previous.value {
        step := step + 1;
      }
      previous := Some(row.layer);
      var key := Key(step, row.layer, row.request, row.row);
      assert key == KeyAt(log.rows, i);
      if key !in rows {
        rows := rows[key := row];
        used := used + {log.rank};
      } else if !Agree(rows[key], row) {
        RankConflictStays(Merged(rows0, used0), log, i + 1, |log.rows|);
        return Conflict(key);
      }
    }
    return Merged(rows, used);
  }

  lemma {:induction false} RankConflictStays(before: Merge, log: RankLog, at: nat, upTo: nat)
    requires at <= upTo <= |log.rows| && MergeRank(before, log, at).Conflict?
    ensures MergeRank(before, log, upTo) == MergeRank(before, log, at)
  {
    if at < upTo {
      RankConflictStays(before, log, at, upTo - 1);
    }
  }

  lemma NoRanks(logs: seq<RankLog>)
    ensures MergeRanks(logs, 0) == Merged(map[], {})
  {
  }

  lemma NextRank(logs: seq<RankLog>, r: nat)
    requires r < |logs|
    ensures MergeRanks(logs, r + 1) == MergeRank(MergeRanks(logs, r), logs[r], |logs[r].rows|)
  {
  }

  lemma {:induction false} ConflictStays(logs: seq<RankLog>, at: nat, upTo: nat)
    requires at <= upTo <= |logs| && MergeRanks(logs, at).Conflict?
    ensures MergeRanks(logs, upTo) == MergeRanks(logs, at)
  {
    if at < upTo {
      ConflictStays(logs, at, upTo - 1);
      NextRank(logs, upTo - 1);
      ConflictThrough(MergeRanks(logs, upTo - 1), logs[upTo - 1], |logs[upTo - 1].rows|);
    }
  }

  lemma {:induction false} ConflictThrough(before: Merge, log: RankLog, upTo: nat)
    requires before.Conflict? && upTo <= |log.rows|
    ensures MergeRank(before, log, upTo) == before
  {
    if upTo > 0 {
      ConflictThrough(before, log, upTo - 1);
    }
  }
}
