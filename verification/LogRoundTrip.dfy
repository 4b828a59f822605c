/** Reconstruction undoes flattening. */
module LogRoundTrip {
  import opened Orders
  import opened SortedSets
  import opened LogReconstruction

  /** The rows of one decode step, layer by layer. */
  type Step = seq<seq<LogRow>>

  function FlatStep(step: Step, upTo: nat): seq<LogRow>
    requires upTo <= |step|
  {
    if upTo == 0 then [] else FlatStep(step, upTo - 1) + step[upTo - 1]
  }

  /** The log of the first `upTo` steps. */
  function FlatTrace(trace: seq<Step>, upTo: nat): seq<LogRow>
    requires upTo <= |trace|
  {
    if upTo == 0 then [] else FlatTrace(trace, upTo - 1) + FlatStep(trace[upTo - 1], |trace[upTo - 1]|)
  }

  ghost predicate WellFormedLayer(step: Step, layer: nat)
    requires layer < |step|
  {
    && step[layer] != []
    && (forall e :: e in step[layer] ==> e.layer == layer)
    && OneName(step[layer]) && !RepeatsRow(step[layer])
    && Requests(step[layer]) == Requests(step[0])
  }

  /** Every layer logged something, under one name, for the same real requests, each row once. */
  ghost predicate WellFormedStep(step: Step, layers: nat) {
    && |step| == layers > 0 && Requests(step[0]) != {}
    && (forall l :: 0 <= l < layers ==> step[l] != [] && WellFormedLayer(step, l))
  }

  ghost predicate WellFormedTrace(trace: seq<Step>, layers: nat) {
    forall s :: 0 <= s < |trace| ==> WellFormedStep(trace[s], layers)
  }

  // ----- What a trace means, without reference to how it is logged

  ghost function RowsOf(block: seq<LogRow>, request: string): set<LogRow> {
    set e | e in block && e.request == request
  }

  ghost function ExpectedRecord(block: seq<LogRow>, request: string, step: nat, layer: nat): UnionTopK
    requires block != []
  {
    UnionTopK(request, step, block[0].layerName, layer, |RowsOf(block, request)|,
              set e, p | e in RowsOf(block, request) && p in e.positions :: p)
  }

  ghost function ExpectedRequest(step: Step, request: string, n: nat): seq<UnionTopK>
    requires forall l :: 0 <= l < |step| ==> step[l] != []
  {
    seq(|step|, l requires 0 <= l < |step| => ExpectedRecord(step[l], request, n, l))
  }

  /** In how many of the first `s` steps the request took part. */
  ghost function StepsSeen(trace: seq<Step>, s: nat, request: string): nat
    requires s <= |trace| && forall i :: 0 <= i < s ==> |trace[i]| > 0
  {
    if s == 0 then 0
    else StepsSeen(trace, s - 1, request) + if request in Requests(trace[s - 1][0]) then 1 else 0
  }

  ghost function ExpectedStep(trace: seq<Step>, layers: nat, s: nat, order: seq<string>, upTo: nat): seq<UnionTopK>
    requires WellFormedTrace(trace, layers) && s < |trace| && upTo <= |order|
  {
    if upTo == 0 then []
    else ExpectedStep(trace, layers, s, order, upTo - 1)
         + ExpectedRequest(trace[s], order[upTo - 1], StepsSeen(trace, s, order[upTo - 1]))
  }

  /** The unions of the first `upTo` steps: by step, by request, by layer. */
  ghost function Expected(trace: seq<Step>, layers: nat, upTo: nat): seq<UnionTopK>
    requires WellFormedTrace(trace, layers) && upTo <= |trace|
  {
    if upTo == 0 then []
    else
      var order := SortStrings(Requests(trace[upTo - 1][0]));
      Expected(trace, layers, upTo - 1) + ExpectedStep(trace, layers, upTo - 1, order, |order|)
  }

  lemma NothingExpected(trace: seq<Step>, layers: nat)
    requires WellFormedTrace(trace, layers)
    ensures Expected(trace, layers, 0) == []
  {
  }

  lemma NextExpected(trace: seq<Step>, layers: nat, s: nat)
    requires WellFormedTrace(trace, layers) && s < |trace|
    ensures layers > 0 && |trace[s]| == layers
    ensures var order := SortStrings(Requests(trace[s][0]));
            Expected(trace, layers, s + 1) == Expected(trace, layers, s) + ExpectedStep(trace, layers, s, order, |order|)
  {
    hide ExpectedStep, WellFormedLayer, Requests;
    assert WellFormedStep(trace[s], layers);
  }

  // ----- A flattened step, layer by layer

  lemma {:induction false} LayerRowsConcat(a: seq<LogRow>, b: seq<LogRow>, layer: nat)
    ensures LayerRows(a + b, layer) == LayerRows(a, layer) + LayerRows(b, layer)
  {
    if b == [] {
      assert a + b == a;
    } else {
      var k := |b| - 1;
      LayerRowsConcat(a, b[..k], layer);
      assert (a + b)[..|a + b| - 1] == a + b[..k];
    }
  }

  lemma {:induction false} LayerRowsUniform(block: seq<LogRow>, own: nat, layer: nat)
    requires forall e :: e in block ==> e.layer == own
    ensures LayerRows(block, layer) == if layer == own then block else []
  {
    if block != [] {
      var k := |block| - 1;
      LayerRowsUniform(block[..k], own, layer);
      assert block == block[..k] + [block[k]];
      assert block[k] in block && block[k].layer == own;
    }
  }

  ghost predicate Layered(step: Step) {
    forall l, e :: 0 <= l < |step| && e in step[l] ==> e.layer == l
  }

  lemma {:induction false} LayeredRows(step: Step, upTo: nat, layer: nat)
    requires Layered(step) && upTo <= |step| && layer < |step|
    ensures LayerRows(FlatStep(step, upTo), layer) == if layer < upTo then step[layer] else []
  {
    hide LayerRows;
    if upTo == 0 {
      LayerRowsUniform([], 0, layer);
    } else {
      LayeredRows(step, upTo - 1, layer);
      LayerRowsConcat(FlatStep(step, upTo - 1), step[upTo - 1], layer);
      LayerRowsUniform(step[upTo - 1], upTo - 1, layer);
    }
  }

  /** Picking a layer out of a flattened step gives back the rows of that layer. */
  lemma FlatStepLayer(step: Step, layers: nat, layer: nat)
    requires WellFormedStep(step, layers) && layer < layers
    ensures LayerRows(FlatStep(step, layers), layer) == step[layer]
  {
    hide OneName, RepeatsRow, Requests, LayerRows;
    forall l, e | 0 <= l < |step| && e in step[l]
      ensures e.layer == l
    {
      assert WellFormedLayer(step, l);
    }
    LayeredRows(step, layers, layer);
  }

  lemma {:induction false} NoFaultFrom(index: nat, step: Step, layers: nat, layer: nat)
    requires WellFormedStep(step, layers) && layer <= layers
    ensures FaultFrom(index, FlatStep(step, layers), layers, layer).None?
    decreases layers - layer
  {
    hide LayerRows, FlatStep, OneName, RepeatsRow, Requests;
    if layer < layers {
      NoFaultFrom(index, step, layers, layer + 1);
      FlatStepLayer(step, layers, layer);
      FlatStepLayer(step, layers, 0);
      assert WellFormedLayer(step, layer);
    }
  }

  lemma StepHasNoFault(index: nat, step: Step, layers: nat)
    requires WellFormedStep(step, layers)
    ensures CycleFault(index, FlatStep(step, layers), layers).None?
  {
    hide LayerRows, FlatStep, FaultFrom, OneName, RepeatsRow, Requests;
    forall l | 0 <= l < layers
      ensures LayerRows(FlatStep(step, layers), l) != []
    {
      FlatStepLayer(step, layers, l);
      assert WellFormedLayer(step, l);
    }
    NoFaultFrom(index, step, layers, 0);
  }

  // ----- Records of a flattened step

  lemma {:induction false} RequestRowsMembers(entries: seq<LogRow>, request: string)
    ensures forall e :: e in RequestRows(entries, request) <==> e in entries && e.request == request
  {
    if entries != [] {
      var k := |entries| - 1;
      RequestRowsMembers(entries[..k], request);
      assert entries == entries[..k] + [entries[k]];
    }
  }

  /** Without repeated rows, the rows a request logged are as many as they are different. */
  lemma RequestRowsMeaning(entries: seq<LogRow>, request: string)
    requires !RepeatsRow(entries) && request != PLACEHOLDER
    ensures forall e :: e in RequestRows(entries, request) <==> e in entries && e.request == request
    ensures |RequestRows(entries, request)| == |RowsOf(entries, request)|
  {
    RequestRowsMembers(entries, request);
    var mine := RequestRows(entries, request);
    if mine != [] {
      assert mine[0] in mine;
      assert mine[0].request in Requests(entries);
    }
    hide RequestRows, Requests;
    assert !RowRepeated(mine);
    NoDuplicatesCount(mine);
    assert RowsOf(entries, request) == set e | e in mine;
  }

  lemma RecordMatches(step: Step, layers: nat, request: string, n: nat, layer: nat)
    requires WellFormedStep(step, layers) && layer < layers && request != PLACEHOLDER
    ensures step[layer] != []
    ensures UnionRecord(FlatStep(step, layers), request, n, layer) == ExpectedRecord(step[layer], request, n, layer)
  {
    hide LayerRows, FlatStep, RequestRows, RepeatsRow, OneName, Requests, RowsOf, PositionsOf;
    FlatStepLayer(step, layers, layer);
    assert WellFormedLayer(step, layer);
    RequestRowsMeaning(step[layer], request);
    PositionsMatch(step[layer], request);
  }

  lemma PositionsMatch(block: seq<LogRow>, request: string)
    ensures PositionsOf(RequestRows(block, request)) == set e, p | e in RowsOf(block, request) && p in e.positions :: p
  {
    hide RequestRows;
    RequestRowsMembers(block, request);
  }

  lemma RequestRecordsMatch(step: Step, layers: nat, request: string, n: nat)
    requires WellFormedStep(step, layers) && request != PLACEHOLDER
    ensures RequestRecords(FlatStep(step, layers), layers, request, n) == ExpectedRequest(step, request, n)
  {
    hide UnionRecord, ExpectedRecord, FlatStep;
    forall l | 0 <= l < layers
      ensures UnionRecord(FlatStep(step, layers), request, n, l) == ExpectedRecord(step[l], request, n, l)
    {
      RecordMatches(step, layers, request, n, l);
    }
  }

  /** The counters agree with how often each request was seen. */
  ghost predicate CountersAgree(trace: seq<Step>, layers: nat, s: nat, steps: map<string, nat>)
    requires WellFormedTrace(trace, layers) && s <= |trace|
  {
    forall q :: StepOf(steps, q) == StepsSeen(trace, s, q)
  }

  lemma {:induction false} CycleRecordsMatch(trace: seq<Step>, layers: nat, s: nat, order: seq<string>, steps: map<string, nat>, upTo: nat)
    requires WellFormedTrace(trace, layers) && s < |trace| && upTo <= |order|
    requires CountersAgree(trace, layers, s, steps) && forall q :: q in order ==> q != PLACEHOLDER
    ensures CycleRecords(FlatStep(trace[s], layers), layers, order, steps, upTo)
            == ExpectedStep(trace, layers, s, order, upTo)
  {
    hide RequestRecords, ExpectedRequest, FlatStep, WellFormedLayer;
    if upTo > 0 {
      CycleRecordsMatch(trace, layers, s, order, steps, upTo - 1);
      assert order[upTo - 1] in order;
      RequestRecordsMatch(trace[s], layers, order[upTo - 1], StepsSeen(trace, s, order[upTo - 1]));
    }
  }

  lemma CountersAdvance(trace: seq<Step>, layers: nat, s: nat, steps: map<string, nat>)
    requires WellFormedTrace(trace, layers) && s < |trace| && CountersAgree(trace, layers, s, steps)
    ensures CountersAgree(trace, layers, s + 1, NextSteps(steps, Requests(trace[s][0])))
  {
    hide WellFormedLayer, Requests;
    var requests := Requests(trace[s][0]);
    forall q
      ensures StepOf(NextSteps(steps, requests), q) == StepsSeen(trace, s + 1, q)
    {
    }
  }

  ghost function StepCycles(trace: seq<Step>, upTo: nat): seq<seq<LogRow>>
    requires upTo <= |trace|
  {
    seq(upTo, s requires 0 <= s < upTo => FlatStep(trace[s], |trace[s]|))
  }

  lemma NextCycle(cycles: seq<seq<LogRow>>, layers: nat, s: nat, progress: Progress, first: seq<LogRow>)
    requires s < |cycles| && CyclesUpTo(cycles, layers, s) == Ok(progress)
    requires CycleFault(s, cycles[s], layers).None? && LayerRows(cycles[s], 0) == first
    ensures var order := SortStrings(Requests(first));
            CyclesUpTo(cycles, layers, s + 1)
            == Ok(Progress(progress.records + CycleRecords(cycles[s], layers, order, progress.steps, |order|),
                           NextSteps(progress.steps, Requests(first))))
  {
    hide CycleFault, Requests, CycleRecords, LayerRows, NextSteps;
  }

  /** Reading the cycles of a trace yields what the trace means. */
  lemma {:induction false} CyclesMatch(trace: seq<Step>, layers: nat, upTo: nat)
    requires WellFormedTrace(trace, layers) && upTo <= |trace|
    ensures var progress := CyclesUpTo(StepCycles(trace, |trace|), layers, upTo);
            && progress.Ok? && progress.value.records == Expected(trace, layers, upTo)
            && CountersAgree(trace, layers, upTo, progress.value.steps)
  {
    if upTo > 0 {
      var s := upTo - 1;
      CyclesMatch(trace, layers, s);
      CyclesMatchStep(trace, layers, s, CyclesUpTo(StepCycles(trace, |trace|), layers, s).value);
    }
  }

  lemma CyclesMatchStep(trace: seq<Step>, layers: nat, s: nat, progress: Progress)
    requires WellFormedTrace(trace, layers) && s < |trace|
    requires CyclesUpTo(StepCycles(trace, |trace|), layers, s) == Ok(progress)
    requires progress.records == Expected(trace, layers, s) && CountersAgree(trace, layers, s, progress.steps)
    ensures var after := CyclesUpTo(StepCycles(trace, |trace|), layers, s + 1);
            && after.Ok? && after.value.records == Expected(trace, layers, s + 1)
            && CountersAgree(trace, layers, s + 1, after.value.steps)
  {
    hide FlatStep, CycleFault, Requests, CycleRecords, ExpectedStep, LayerRows, CyclesUpTo, WellFormedLayer,
         CountersAgree, NextSteps;
    assert WellFormedStep(trace[s], layers);
    StepHasNoFault(s, trace[s], layers);
    FlatStepLayer(trace[s], layers, 0);
    NextCycle(StepCycles(trace, |trace|), layers, s, progress, trace[s][0]);
    var order := SortStrings(Requests(trace[s][0]));
    RealRequests(trace[s][0]);
    CycleRecordsMatch(trace, layers, s, order, progress.steps, |order|);
    CountersAdvance(trace, layers, s, progress.steps);
  }

  // ----- Cutting the flattened log

  /** Layers climb from the first to the last. */
  ghost predicate FullCycle(cycle: seq<LogRow>, layers: nat) {
    && cycle != [] && cycle[0].layer == 0 && cycle[|cycle| - 1].layer + 1 == layers
    && (forall i, j :: 0 <= i < j < |cycle| ==> cycle[i].layer <= cycle[j].layer)
  }

  lemma OneLayerCycle(block: seq<LogRow>)
    requires block != [] && forall i :: 0 <= i < |block| ==> block[i].layer == 0
    ensures FullCycle(block, 1)
  {
  }

  lemma CycleGrows(front: seq<LogRow>, block: seq<LogRow>, layers: nat)
    requires FullCycle(front, layers) && block != [] && forall i :: 0 <= i < |block| ==> block[i].layer == layers
    ensures FullCycle(front + block, layers + 1)
  {
    assert forall i :: 0 <= i < |front| ==> front[i].layer <= front[|front| - 1].layer;
  }

  lemma {:induction false} FlatStepClimbs(step: Step, layers: nat, upTo: nat)
    requires WellFormedStep(step, layers) && 0 < upTo <= layers
    ensures FullCycle(FlatStep(step, upTo), upTo)
  {
    hide OneName, RepeatsRow, Requests, FullCycle;
    var block := step[upTo - 1];
    assert WellFormedLayer(step, upTo - 1);
    assert forall i :: 0 <= i < |block| ==> block[i] in block;
    if upTo == 1 {
      assert FlatStep(step, 0) == [];
      assert FlatStep(step, 1) == block;
      OneLayerCycle(block);
    } else {
      FlatStepClimbs(step, layers, upTo - 1);
      CycleGrows(FlatStep(step, upTo - 1), block, upTo - 1);
    }
  }

  /** Scanning a full cycle closes the previous one and collects this one. */
  lemma {:induction false} CutCycle(rows: seq<LogRow>, layers: nat, start: nat, cycle: seq<LogRow>, upTo: nat)
    requires layers >= 2 && FullCycle(cycle, layers) && 0 < upTo <= |cycle|
    requires start + |cycle| <= |rows| && rows[start..start + |cycle|] == cycle
    requires start > 0 ==> rows[start - 1].layer + 1 == layers
    requires CutUpTo(rows, layers, start).Cut?
    ensures var before := CutUpTo(rows, layers, start);
            CutUpTo(rows, layers, start + upTo)
            == Cut(if start == 0 then [] else before.cycles + [before.current], cycle[..upTo])
  {
    hide CutUpTo;
    var at := start + upTo - 1;
    CycleRow(rows, start, cycle, upTo - 1);
    if upTo == 1 {
      CutStep(rows, layers, at);
      assert cycle[..1] == [cycle[0]];
      CutNothing(rows, layers);
      assert [] + [cycle[0]] == [cycle[0]];
    } else {
      CutCycle(rows, layers, start, cycle, upTo - 1);
      CutStep(rows, layers, at);
      CycleRow(rows, start, cycle, upTo - 2);
      assert cycle[..upTo] == cycle[..upTo - 1] + [cycle[upTo - 1]];
    }
  }

  lemma CycleRow(rows: seq<LogRow>, start: nat, cycle: seq<LogRow>, k: nat)
    requires start + |cycle| <= |rows| && rows[start..start + |cycle|] == cycle && k < |cycle|
    ensures rows[start + k] == cycle[k]
  {
    assert rows[start..start + |cycle|][k] == rows[start + k];
  }

  lemma CutStep(rows: seq<LogRow>, layers: nat, at: nat)
    requires at < |rows| && CutUpTo(rows, layers, at).Cut?
    ensures var before := CutUpTo(rows, layers, at);
            CutUpTo(rows, layers, at + 1)
            == if at > 0 && rows[at - 1].layer + 1 == layers && rows[at].layer == 0 then
                 Cut(before.cycles + [before.current], [rows[at]])
               else if at > 0 && rows[at].layer < rows[at - 1].layer then Broken(at)
               else Cut(before.cycles, before.current + [rows[at]])
  {
  }

  /** The log so far is `front`; the rows of the next step follow. */
  lemma StepFollows(rows: seq<LogRow>, trace: seq<Step>, layers: nat, s: nat)
    requires WellFormedTrace(trace, layers) && s < |trace| && FlatTrace(trace, s + 1) <= rows
    ensures |trace[s]| == layers
    ensures var front, cycle := FlatTrace(trace, s), FlatStep(trace[s], layers);
            && front <= rows && |FlatTrace(trace, s + 1)| == |front| + |cycle| <= |rows|
            && rows[|front|..|front| + |cycle|] == cycle && FullCycle(cycle, layers)
  {
    hide WellFormedLayer, FullCycle, FlatStep, FlatTrace;
    assert WellFormedStep(trace[s], layers);
    FlatStepClimbs(trace[s], layers, layers);
    NextFlatTrace(trace, s);
    PartOf(FlatTrace(trace, s), FlatStep(trace[s], layers), rows);
  }

  lemma NextFlatTrace(trace: seq<Step>, s: nat)
    requires s < |trace|
    ensures FlatTrace(trace, s + 1) == FlatTrace(trace, s) + FlatStep(trace[s], |trace[s]|)
  {
    hide FlatStep;
  }

  lemma PartOf(front: seq<LogRow>, part: seq<LogRow>, rows: seq<LogRow>)
    requires front + part <= rows
    ensures front <= rows && |front| + |part| <= |rows| && rows[|front|..|front| + |part|] == part
  {
    assert rows[..|front| + |part|] == front + part;
  }

  lemma NoStepCycles(trace: seq<Step>)
    ensures StepCycles(trace, 0) == [] && FlatTrace(trace, 0) == []
  {
  }

  lemma NextStepCycles(trace: seq<Step>, layers: nat, s: nat)
    requires WellFormedTrace(trace, layers) && s < |trace|
    ensures StepCycles(trace, s + 1) == StepCycles(trace, s) + [FlatStep(trace[s], layers)]
  {
    hide FlatStep, WellFormedLayer;
    assert WellFormedStep(trace[s], layers);
  }

  /** After the rows of `s + 1` steps, the earlier steps are cut off and the last one is being collected. */
  lemma {:induction false} CutTrace(rows: seq<LogRow>, trace: seq<Step>, layers: nat, s: nat)
    requires WellFormedTrace(trace, layers) && layers >= 2 && s < |trace| && FlatTrace(trace, s + 1) <= rows
    ensures var at := |FlatTrace(trace, s + 1)|;
            && CutUpTo(rows, layers, at) == Cut(StepCycles(trace, s), FlatStep(trace[s], layers))
            && 0 < at && rows[at - 1].layer + 1 == layers
  {
    hide FlatStep, CutUpTo, WellFormedStep, FullCycle, StepCycles, FlatTrace;
    StepFollows(rows, trace, layers, s);
    var start, cycle := |FlatTrace(trace, s)|, FlatStep(trace[s], layers);
    CycleEnds(cycle, layers);
    if s == 0 {
      CutNothing(rows, layers);
      NoStepCycles(trace);
    } else {
      CutTrace(rows, trace, layers, s - 1);
      NextStepCycles(trace, layers, s - 1);
    }
    CutCycle(rows, layers, start, cycle, |cycle|);
    assert cycle[..|cycle|] == cycle;
  }

  lemma CycleEnds(cycle: seq<LogRow>, layers: nat)
    requires FullCycle(cycle, layers)
    ensures cycle != [] && cycle[|cycle| - 1].layer + 1 == layers
  {
  }

  lemma CutNothing(rows: seq<LogRow>, layers: nat)
    ensures CutUpTo(rows, layers, 0) == Cut([], [])
  {
  }

  lemma CyclesOfTrace(trace: seq<Step>, layers: nat)
    requires WellFormedTrace(trace, layers) && layers >= 2
    ensures Cycles(FlatTrace(trace, |trace|), layers) == Ok(StepCycles(trace, |trace|))
  {
    hide FlatStep, CutUpTo, WellFormedLayer, StepCycles, FullCycle;
    var rows := FlatTrace(trace, |trace|);
    if trace == [] {
      NoStepCycles(trace);
      CutNothing(rows, layers);
    } else {
      var last := |trace| - 1;
      CutTrace(rows, trace, layers, last);
      StepFollows(rows, trace, layers, last);
      CycleEnds(FlatStep(trace[last], layers), layers);
      NextStepCycles(trace, layers, last);
    }
  }

  /**
    Reconstruction inverts flattening: with at least two layers, the log of any well-formed
    sequence of steps is rebuilt into exactly its per-request, per-step, per-layer unions.
   */
  lemma ReconstructionInvertsFlattening(trace: seq<Step>, layers: nat)
    requires WellFormedTrace(trace, layers) && layers >= 2
    ensures Reconstruct(FlatTrace(trace, |trace|), layers) == Ok(Expected(trace, layers, |trace|))
  {
    hide CyclesUpTo, Cycles, FlatTrace;
    CyclesOfTrace(trace, layers);
    CyclesMatch(trace, layers, |trace|);
  }
}
