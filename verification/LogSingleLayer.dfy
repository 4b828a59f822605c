/**
  A log of a single layer.  Every row follows the last layer, so every row is cut off as a step of
  its own, and the round trip holds exactly for traces that log one row per request, in order.
 */
module LogSingleLayer {
  import opened Orders
  import opened SortedSets
  import opened LogReconstruction
  import opened LogRoundTrip

  /** The trace in which every row is a step. */
  ghost function RowSteps(rows: seq<LogRow>): seq<Step> {
    seq(|rows|, i requires 0 <= i < |rows| => [[rows[i]]])
  }

  ghost predicate SingleLayer(rows: seq<LogRow>) {
    forall i :: 0 <= i < |rows| ==> rows[i].layer == 0
  }

  ghost predicate AllReal(rows: seq<LogRow>) {
    forall i :: 0 <= i < |rows| ==> rows[i].request != PLACEHOLDER
  }

  lemma RowCycle(rows: seq<LogRow>, i: nat)
    requires i < |rows|
    ensures FlatStep(RowSteps(rows)[i], 1) == [rows[i]]
  {
    assert FlatStep(RowSteps(rows)[i], 0) == [];
  }

  lemma {:induction false} CutSingles(rows: seq<LogRow>, upTo: nat)
    requires SingleLayer(rows) && 0 < upTo <= |rows|
    ensures CutUpTo(rows, 1, upTo) == Cut(StepCycles(RowSteps(rows), upTo - 1), [rows[upTo - 1]])
  {
    hide FlatStep, RowSteps;
    if upTo > 1 {
      CutSingles(rows, upTo - 1);
      RowCycle(rows, upTo - 2);
      assert |RowSteps(rows)[upTo - 2]| == 1 by {
        RowStepAt(rows, upTo - 2);
      }
      assert StepCycles(RowSteps(rows), upTo - 1) == StepCycles(RowSteps(rows), upTo - 2) + [[rows[upTo - 2]]];
    }
  }

  lemma RowStepAt(rows: seq<LogRow>, i: nat)
    requires i < |rows|
    ensures |RowSteps(rows)| == |rows| && RowSteps(rows)[i] == [[rows[i]]]
  {
  }

  lemma SinglesAreCycles(rows: seq<LogRow>)
    requires SingleLayer(rows)
    ensures Cycles(rows, 1) == Ok(StepCycles(RowSteps(rows), |rows|))
  {
    hide FlatStep, CutUpTo;
    if rows != [] {
      var last := |rows| - 1;
      CutSingles(rows, |rows|);
      RowCycle(rows, last);
      assert StepCycles(RowSteps(rows), |rows|) == StepCycles(RowSteps(rows), last) + [[rows[last]]];
    } else {
      CutNothing(rows, 1);
      NoStepCycles(RowSteps(rows));
    }
  }

  lemma RowStepsWellFormed(rows: seq<LogRow>)
    requires SingleLayer(rows) && AllReal(rows)
    ensures WellFormedTrace(RowSteps(rows), 1)
  {
    forall s | 0 <= s < |rows|
      ensures WellFormedStep(RowSteps(rows)[s], 1)
    {
      OneRowStep(rows[s]);
    }
  }

  lemma OneRowStep(row: LogRow)
    requires row.layer == 0 && row.request != PLACEHOLDER
    ensures WellFormedStep([[row]], 1) && Requests([row]) == {row.request}
  {
    assert row in [row];
    assert Requests([row]) == {row.request};
    forall q
      ensures !RowRepeated(RequestRows([row], q))
    {
      OneRowRequest(row, q);
    }
  }

  lemma OneRowRequest(row: LogRow, q: string)
    ensures |RequestRows([row], q)| <= 1
  {
    assert [row][..0] == [];
  }

  /** A row without a request stops the reconstruction. */
  lemma {:induction false} PlaceholderStops(rows: seq<LogRow>, i: nat, upTo: nat)
    requires i < upTo <= |rows| && rows[i].request == PLACEHOLDER && rows[i].layer == 0
    ensures CyclesUpTo(StepCycles(RowSteps(rows), |rows|), 1, upTo).Err?
  {
    hide FlatStep, RowSteps, CycleFault, CyclesUpTo;
    StepCyclesLength(rows);
    if i + 1 < upTo {
      PlaceholderStops(rows, i, upTo - 1);
      CycleStops(StepCycles(RowSteps(rows), |rows|), upTo - 1);
    } else {
      RowStepAt(rows, i);
      RowCycle(rows, i);
      PlaceholderFault(i, rows[i]);
      assert StepCycles(RowSteps(rows), |rows|)[i] == [rows[i]];
      CycleStops(StepCycles(RowSteps(rows), |rows|), i);
    }
  }

  lemma CycleStops(cycles: seq<seq<LogRow>>, k: nat)
    requires k < |cycles| && (CyclesUpTo(cycles, 1, k).Err? || CycleFault(k, cycles[k], 1).Some?)
    ensures CyclesUpTo(cycles, 1, k + 1).Err?
  {
    hide CycleFault, NextSteps, CycleRecords, Requests, LayerRows;
  }

  lemma PlaceholderFault(index: nat, row: LogRow)
    requires row.request == PLACEHOLDER && row.layer == 0
    ensures CycleFault(index, [row], 1).Some?
  {
    LayerRowsUniform([row], 0, 0);
    assert Requests([row]) == {};
  }

  /** What reconstruction makes of a single-layer log, for every such log. */
  lemma SingleLayerReconstruction(rows: seq<LogRow>)
    requires SingleLayer(rows)
    ensures Reconstruct(rows, 1).Ok? <==> AllReal(rows)
    ensures AllReal(rows) ==> WellFormedTrace(RowSteps(rows), 1) && |RowSteps(rows)| == |rows|
    ensures AllReal(rows) ==> Reconstruct(rows, 1) == Ok(Expected(RowSteps(rows), 1, |rows|))
  {
    hide Cycles, CyclesUpTo, Expected, StepCycles;
    SinglesAreCycles(rows);
    StepCyclesLength(rows);
    if AllReal(rows) {
      RowStepsWellFormed(rows);
      CyclesMatch(RowSteps(rows), 1, |rows|);
    } else {
      var i :| 0 <= i < |rows| && rows[i].request == PLACEHOLDER;
      PlaceholderStops(rows, i, |rows|);
    }
  }

  lemma StepCyclesLength(rows: seq<LogRow>)
    ensures |RowSteps(rows)| == |StepCycles(RowSteps(rows), |rows|)| == |rows|
  {
  }

  // ----- When that is the trace

  ghost function Names(block: seq<LogRow>): (names: seq<string>)
    ensures |names| == |block| && forall i :: 0 <= i < |block| ==> names[i] == block[i].request
  {
    seq(|block|, i requires 0 <= i < |block| => block[i].request)
  }

  /** Every step logs one row per request, all of them real, in the order of their ids. */
  ghost predicate OneRowEach(trace: seq<Step>)
    requires WellFormedTrace(trace, 1)
  {
    forall s :: 0 <= s < |trace| ==> AllReal(trace[s][0]) && Climbs(Names(trace[s][0]), StringLess)
  }

  ghost function RecordAt(trace: seq<Step>, s: nat, request: string): UnionTopK
    requires WellFormedTrace(trace, 1) && s < |trace|
  {
    ExpectedRecord(trace[s][0], request, StepsSeen(trace, s, request), 0)
  }

  lemma {:induction false} StepRecords(trace: seq<Step>, s: nat, order: seq<string>, upTo: nat)
    requires WellFormedTrace(trace, 1) && s < |trace| && upTo <= |order|
    ensures |ExpectedStep(trace, 1, s, order, upTo)| == upTo
    ensures forall k :: 0 <= k < upTo ==> ExpectedStep(trace, 1, s, order, upTo)[k] == RecordAt(trace, s, order[k])
  {
    hide ExpectedRecord, WellFormedLayer, StepsSeen;
    if upTo > 0 {
      StepRecords(trace, s, order, upTo - 1);
      assert ExpectedRequest(trace[s], order[upTo - 1], StepsSeen(trace, s, order[upTo - 1]))
             == [RecordAt(trace, s, order[upTo - 1])];
    }
  }

  /** The order in which the requests of a step are reported. */
  ghost function OrderOf(trace: seq<Step>, s: nat): seq<string>
    requires WellFormedTrace(trace, 1) && s < |trace|
  {
    SortStrings(Requests(trace[s][0]))
  }

  lemma NextFlat(trace: seq<Step>, s: nat)
    requires WellFormedTrace(trace, 1) && s < |trace|
    ensures FlatTrace(trace, s + 1) == FlatTrace(trace, s) + trace[s][0]
  {
    hide WellFormedLayer;
    assert WellFormedStep(trace[s], 1);
    assert FlatStep(trace[s], 0) == [];
    assert FlatStep(trace[s], 1) == trace[s][0];
  }

  lemma RowOrder(rows: seq<LogRow>, n: nat)
    requires SingleLayer(rows) && AllReal(rows) && n < |rows| && WellFormedTrace(RowSteps(rows), 1)
    ensures OrderOf(RowSteps(rows), n) == [rows[n].request]
  {
    OneRowStep(rows[n]);
    StringOrder();
    SortedUnique([rows[n].request], {rows[n].request}, StringLess);
  }

  /** Row by row, one record each. */
  lemma {:induction false} RowRecords(rows: seq<LogRow>, upTo: nat)
    requires SingleLayer(rows) && AllReal(rows) && upTo <= |rows| && WellFormedTrace(RowSteps(rows), 1)
    ensures |Expected(RowSteps(rows), 1, upTo)| == upTo
    ensures forall i :: 0 <= i < upTo ==> Expected(RowSteps(rows), 1, upTo)[i] == RecordAt(RowSteps(rows), i, rows[i].request)
  {
    hide Expected, ExpectedStep, RecordAt, WellFormedTrace, RowSteps, SortStrings, Requests;
    RowStepsLength(rows);
    if upTo == 0 {
      NothingExpected(RowSteps(rows), 1);
    } else {
      RowRecords(rows, upTo - 1);
      RowNext(rows, upTo - 1);
    }
  }

  lemma RowNext(rows: seq<LogRow>, n: nat)
    requires SingleLayer(rows) && AllReal(rows) && n < |rows| == |RowSteps(rows)| && WellFormedTrace(RowSteps(rows), 1)
    ensures Expected(RowSteps(rows), 1, n + 1)
            == Expected(RowSteps(rows), 1, n) + [RecordAt(RowSteps(rows), n, rows[n].request)]
  {
    hide Expected, ExpectedStep, RecordAt, WellFormedTrace, RowSteps, SortStrings, Requests;
    NextExpected(RowSteps(rows), 1, n);
    RowOrder(rows, n);
    var order := [rows[n].request];
    StepRecords(RowSteps(rows), n, order, 1);
    assert ExpectedStep(RowSteps(rows), 1, n, order, 1) == [RecordAt(RowSteps(rows), n, order[0])];
  }

  lemma RowStepsLength(rows: seq<LogRow>)
    ensures |RowSteps(rows)| == |rows|
  {
  }

  lemma {:induction false} FewerRequests(block: seq<LogRow>)
    ensures |Requests(block)| <= |block|
  {
    if block != [] {
      var k := |block| - 1;
      FewerRequests(block[..k]);
      var most := Requests(block[..k]) + {block[k].request};
      forall e | e in block && e.request != PLACEHOLDER
        ensures e.request in most
      {
        assert block == block[..k] + [block[k]];
      }
      assert Requests(block) <= most;
      SubsetSize(Requests(block), most);
    }
  }

  lemma StepFallsBehind(trace: seq<Step>, s: nat)
    requires WellFormedTrace(trace, 1) && s < |trace|
    ensures Expected(trace, 1, s) <= Expected(trace, 1, s + 1) && FlatTrace(trace, s) <= FlatTrace(trace, s + 1)
    ensures |Expected(trace, 1, s + 1)| - |Expected(trace, 1, s)| <= |FlatTrace(trace, s + 1)| - |FlatTrace(trace, s)|
  {
    hide Expected, FlatTrace, ExpectedStep, Requests, WellFormedLayer, FlatStep;
    assert WellFormedStep(trace[s], 1);
    NextExpected(trace, 1, s);
    NextFlat(trace, s);
    FewerRequests(trace[s][0]);
    StepRecords(trace, s, OrderOf(trace, s), |OrderOf(trace, s)|);
  }

  /** A trace has at most one record per row, and a step that has fewer is never made up for. */
  lemma {:induction false} RecordsFallBehind(trace: seq<Step>, s: nat, upTo: nat)
    requires WellFormedTrace(trace, 1) && s <= upTo <= |trace|
    ensures |Expected(trace, 1, s)| <= |FlatTrace(trace, s)|
    ensures |FlatTrace(trace, s)| - |Expected(trace, 1, s)| <= |FlatTrace(trace, upTo)| - |Expected(trace, 1, upTo)|
    ensures Expected(trace, 1, s) <= Expected(trace, 1, upTo) && FlatTrace(trace, s) <= FlatTrace(trace, upTo)
    decreases upTo
  {
    hide Expected, FlatTrace, WellFormedTrace;
    if upTo == 0 {
      NothingExpected(trace, 1);
    } else {
      var last := upTo - 1;
      StepFallsBehind(trace, last);
      RecordsFallBehind(trace, if s < upTo then s else last, last);
    }
  }

  /** Matching records force one row per request, in order. */
  lemma MatchingStepIsOrdered(trace: seq<Step>, s: nat)
    requires WellFormedTrace(trace, 1) && s < |trace|
    requires var rows := FlatTrace(trace, |trace|);
             && SingleLayer(rows) && AllReal(rows) && WellFormedTrace(RowSteps(rows), 1) && |RowSteps(rows)| == |rows|
             && Expected(RowSteps(rows), 1, |rows|) == Expected(trace, 1, |trace|)
    ensures AllReal(trace[s][0]) && Climbs(Names(trace[s][0]), StringLess)
  {
    hide Expected, FlatTrace, ExpectedStep, Requests, WellFormedLayer, RowSteps, Names, RecordAt, Sorted, SingleLayer, AllReal,
         Climbs, SortStrings;
    assert WellFormedStep(trace[s], 1);
    var rows, n := FlatTrace(trace, |trace|), |trace|;
    RowRecords(rows, |rows|);
    RecordsFallBehind(trace, s, n);
    RecordsFallBehind(trace, s + 1, n);
    NextExpected(trace, 1, s);
    NextFlat(trace, s);
    var block, order, base := trace[s][0], OrderOf(trace, s), |FlatTrace(trace, s)|;
    StepRecords(trace, s, order, |order|);
    assert |order| == |block|;
    forall k | 0 <= k < |block|
      ensures block[k].request == order[k]
    {
      PartAt(FlatTrace(trace, s), block, rows, k);
      PartAt(Expected(trace, 1, s), ExpectedStep(trace, 1, s, order, |order|), Expected(trace, 1, n), k);
      MatchingRecords(trace, s, rows, base, k);
    }
    assert Names(block) == order;
    OrderIsReal(trace, s);
  }

  lemma PartAt<T>(before: seq<T>, part: seq<T>, whole: seq<T>, k: nat)
    requires before + part <= whole && k < |part|
    ensures |before| + k < |whole| && whole[|before| + k] == part[k]
  {
    assert (before + part)[|before| + k] == part[k];
  }

  lemma MatchingRecords(trace: seq<Step>, s: nat, rows: seq<LogRow>, base: nat, k: nat)
    requires WellFormedTrace(trace, 1) && s < |trace| && k < |trace[s][0]| && k < |OrderOf(trace, s)|
    requires WellFormedTrace(RowSteps(rows), 1) && base + k < |rows| && rows[base + k] == trace[s][0][k]
    requires RecordAt(RowSteps(rows), base + k, rows[base + k].request) == RecordAt(trace, s, OrderOf(trace, s)[k])
    ensures trace[s][0][k].request == OrderOf(trace, s)[k]
  {
    hide Requests, WellFormedLayer, Sorted, StepsSeen;
  }

  lemma OrderIsReal(trace: seq<Step>, s: nat)
    requires WellFormedTrace(trace, 1) && s < |trace| && Names(trace[s][0]) == OrderOf(trace, s)
    ensures AllReal(trace[s][0]) && Climbs(Names(trace[s][0]), StringLess)
  {
    RealRequests(trace[s][0]);
    forall i | 0 <= i < |trace[s][0]|
      ensures trace[s][0][i].request != PLACEHOLDER
    {
      assert OrderOf(trace, s)[i] in OrderOf(trace, s);
    }
  }

  // ----- One row per request, in order, is enough

  lemma SameRecord(block: seq<LogRow>, k: nat, n: nat)
    requires k < |block| && OneName(block) && Climbs(Names(block), StringLess)
    ensures ExpectedRecord(block, block[k].request, n, 0) == ExpectedRecord([block[k]], block[k].request, n, 0)
  {
    StringOrder();
    var q := block[k].request;
    forall e | e in block && e.request == q
      ensures e == block[k]
    {
      var i :| 0 <= i < |block| && block[i] == e;
    }
    assert RowsOf(block, q) == {block[k]};
    assert RowsOf([block[k]], q) == {block[k]};
  }

  lemma NamesAreOrder(trace: seq<Step>, s: nat)
    requires WellFormedTrace(trace, 1) && s < |trace|
    requires AllReal(trace[s][0]) && Climbs(Names(trace[s][0]), StringLess)
    ensures OrderOf(trace, s) == Names(trace[s][0])
  {
    var block := trace[s][0];
    StringOrder();
    forall q
      ensures q in Names(block) <==> q in Requests(block)
    {
      if q in Names(block) {
        var i :| 0 <= i < |block| && Names(block)[i] == q;
        assert block[i] in block;
      }
      if q in Requests(block) {
        var e :| e in block && e.request == q;
        var i :| 0 <= i < |block| && block[i] == e;
        assert Names(block)[i] == q;
      }
    }
    SortedUnique(Names(block), Requests(block), StringLess);
  }

  /** A request's step number counts the steps it took part in, one row or one step at a time. */
  ghost predicate SameCounts(trace: seq<Step>, s: nat, rowTrace: seq<Step>, n: nat, seen: seq<string>)
    requires WellFormedTrace(trace, 1) && s <= |trace| && WellFormedTrace(rowTrace, 1) && n <= |rowTrace|
  {
    forall q :: StepsSeen(rowTrace, n, q) == StepsSeen(trace, s, q) + if q in seen then 1 else 0
  }

  lemma CountRow(trace: seq<Step>, s: nat, rows: seq<LogRow>, n: nat, names: seq<string>, k: nat)
    requires WellFormedTrace(trace, 1) && s < |trace| && SingleLayer(rows) && AllReal(rows)
    requires WellFormedTrace(RowSteps(rows), 1) && n < |rows| && k < |names| && names[k] == rows[n].request
    requires Climbs(names, StringLess) && SameCounts(trace, s, RowSteps(rows), n, names[..k])
    ensures StepsSeen(RowSteps(rows), n, names[k]) == StepsSeen(trace, s, names[k])
    ensures SameCounts(trace, s, RowSteps(rows), n + 1, names[..k + 1])
  {
    hide Requests, WellFormedLayer;
    StringOrder();
    assert names[k] !in names[..k];
    OneRowStep(rows[n]);
    assert names[..k + 1] == names[..k] + [names[k]];
  }

  lemma CountStep(trace: seq<Step>, s: nat, rowTrace: seq<Step>, n: nat)
    requires WellFormedTrace(trace, 1) && s < |trace| && WellFormedTrace(rowTrace, 1) && n <= |rowTrace|
    requires SameCounts(trace, s, rowTrace, n, OrderOf(trace, s))
    ensures SameCounts(trace, s + 1, rowTrace, n, [])
  {
    hide Requests, WellFormedLayer;
  }

  /** The records of the rows of a step are the records of the step. */
  lemma {:induction false} OrderedRows(trace: seq<Step>, s: nat, rows: seq<LogRow>, k: nat)
    requires WellFormedTrace(trace, 1) && s < |trace| && SingleLayer(rows) && AllReal(rows)
    requires WellFormedTrace(RowSteps(rows), 1) && |RowSteps(rows)| == |rows|
    requires FlatTrace(trace, s) + trace[s][0] <= rows && k <= |trace[s][0]|
    requires AllReal(trace[s][0]) && Climbs(Names(trace[s][0]), StringLess)
    requires var base := |FlatTrace(trace, s)|;
             && SameCounts(trace, s, RowSteps(rows), base, [])
             && Expected(RowSteps(rows), 1, base) == Expected(trace, 1, s)
    ensures var base, names := |FlatTrace(trace, s)|, Names(trace[s][0]);
            && SameCounts(trace, s, RowSteps(rows), base + k, names[..k])
            && Expected(RowSteps(rows), 1, base + k) == Expected(trace, 1, s) + ExpectedStep(trace, 1, s, names, k)
  {
    hide Expected, FlatTrace, ExpectedStep, Requests, WellFormedLayer, RowSteps, Names, RecordAt, SameCounts, StepsSeen;
    var block, names, base := trace[s][0], Names(trace[s][0]), |FlatTrace(trace, s)|;
    assert WellFormedStep(trace[s], 1);
    StepRecords(trace, s, names, k);
    if k == 0 {
      assert names[..0] == [];
      assert Expected(trace, 1, s) + ExpectedStep(trace, 1, s, names, 0) == Expected(trace, 1, s);
    } else {
      var n := base + k - 1;
      OrderedRows(trace, s, rows, k - 1);
      assert rows[n] == (FlatTrace(trace, s) + block)[n] == block[k - 1];
      CountRow(trace, s, rows, n, names, k - 1);
      RowRecords(rows, n);
      RowRecords(rows, n + 1);
      NextExpected(RowSteps(rows), 1, n);
      RowOrder(rows, n);
      StepRecords(RowSteps(rows), n, [rows[n].request], 1);
      StepRecords(trace, s, names, k - 1);
      SameRowRecord(trace, s, rows, n, k - 1);
      assert ExpectedStep(trace, 1, s, names, k) == ExpectedStep(trace, 1, s, names, k - 1) + [RecordAt(trace, s, names[k - 1])];
    }
  }

  lemma SameRowRecord(trace: seq<Step>, s: nat, rows: seq<LogRow>, n: nat, k: nat)
    requires WellFormedTrace(trace, 1) && s < |trace| && WellFormedTrace(RowSteps(rows), 1) && n < |rows|
    requires k < |trace[s][0]| && rows[n] == trace[s][0][k] && Climbs(Names(trace[s][0]), StringLess)
    requires StepsSeen(RowSteps(rows), n, rows[n].request) == StepsSeen(trace, s, rows[n].request)
    ensures RecordAt(RowSteps(rows), n, rows[n].request) == RecordAt(trace, s, rows[n].request)
  {
    hide ExpectedRecord, StepsSeen, Names;
    assert WellFormedStep(trace[s], 1);
    assert WellFormedLayer(trace[s], 0);
    SameRecord(trace[s][0], k, StepsSeen(trace, s, rows[n].request));
  }

  lemma {:induction false} OrderedTrace(trace: seq<Step>, rows: seq<LogRow>, s: nat)
    requires WellFormedTrace(trace, 1) && OneRowEach(trace) && s <= |trace| && FlatTrace(trace, s) <= rows
    requires SingleLayer(rows) && AllReal(rows) && WellFormedTrace(RowSteps(rows), 1) && |RowSteps(rows)| == |rows|
    ensures var base := |FlatTrace(trace, s)|;
            && SameCounts(trace, s, RowSteps(rows), base, [])
            && Expected(RowSteps(rows), 1, base) == Expected(trace, 1, s)
  {
    hide Expected, FlatTrace, ExpectedStep, WellFormedLayer, RowSteps, Names, SameCounts, Climbs, FlatStep;
    if s == 0 {
      NoStepCycles(trace);
      NothingExpected(trace, 1);
      NothingExpected(RowSteps(rows), 1);
      NothingCounted(trace, RowSteps(rows));
    } else {
      var last := s - 1;
      assert WellFormedStep(trace[last], 1);
      NextFlat(trace, last);
      OrderedTrace(trace, rows, last);
      OrderedRows(trace, last, rows, |trace[last][0]|);
      NamesAreOrder(trace, last);
      NextExpected(trace, 1, last);
      assert Names(trace[last][0])[..|trace[last][0]|] == Names(trace[last][0]);
      CountStep(trace, last, RowSteps(rows), |FlatTrace(trace, s)|);
    }
  }

  lemma NothingCounted(trace: seq<Step>, rowTrace: seq<Step>)
    requires WellFormedTrace(trace, 1) && WellFormedTrace(rowTrace, 1)
    ensures SameCounts(trace, 0, rowTrace, 0, [])
  {
  }

  lemma {:induction false} FlatRows(trace: seq<Step>, s: nat)
    requires WellFormedTrace(trace, 1) && s <= |trace|
    ensures SingleLayer(FlatTrace(trace, s))
    ensures AllReal(FlatTrace(trace, s)) <==> forall i :: 0 <= i < s ==> AllReal(trace[i][0])
  {
    hide FlatTrace, FlatStep;
    if s == 0 {
      NoStepCycles(trace);
    } else {
      var last := s - 1;
      assert WellFormedStep(trace[last], 1) && WellFormedLayer(trace[last], 0);
      NextFlat(trace, last);
      FlatRows(trace, last);
      RealParts(FlatTrace(trace, last), trace[last][0]);
    }
  }

  lemma RealParts(a: seq<LogRow>, b: seq<LogRow>)
    ensures AllReal(a + b) <==> AllReal(a) && AllReal(b)
    ensures SingleLayer(a + b) <==> SingleLayer(a) && SingleLayer(b)
  {
    assert forall i :: 0 <= i < |a| ==> a[i] == (a + b)[i];
    assert forall i :: 0 <= i < |b| ==> b[i] == (a + b)[|a| + i];
  }

  /**
    With one layer, reconstruction inverts flattening exactly for the traces in which every step
    logs one row per request, all of them real, in the order of their ids.
   */
  lemma SingleLayerRoundTrip(trace: seq<Step>)
    requires WellFormedTrace(trace, 1)
    ensures Reconstruct(FlatTrace(trace, |trace|), 1) == Ok(Expected(trace, 1, |trace|)) <==> OneRowEach(trace)
  {
    hide Expected, FlatTrace, Reconstruct, AllReal, Climbs, WellFormedLayer, RowSteps, SingleLayer, Requests, Names;
    var rows := FlatTrace(trace, |trace|);
    FlatRows(trace, |trace|);
    SingleLayerReconstruction(rows);
    if OneRowEach(trace) {
      OrderedTrace(trace, rows, |trace|);
    }
    if Reconstruct(rows, 1) == Ok(Expected(trace, 1, |trace|)) {
      forall s | 0 <= s < |trace|
        ensures AllReal(trace[s][0]) && Climbs(Names(trace[s][0]), StringLess)
      {
        MatchingStepIsOrdered(trace, s);
      }
    }
  }
}
