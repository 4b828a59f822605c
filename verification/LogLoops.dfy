/** Reconstruction as the loops that perform it. */
module LogLoops {
  import opened Options
  import opened Orders
  import opened LogReconstruction

  method CutLog(rows: seq<LogRow>, layers: nat) returns (r: Result<seq<seq<LogRow>>>)
    ensures r == Cycles(rows, layers)
  {
    var cycles: seq<seq<LogRow>> := [];
    var current: seq<LogRow> := [];
    var previous: Option<nat> := None;
    for k := 0 to |rows|
      invariant CutUpTo(rows, layers, k) == Cut(cycles, current)
      invariant previous == if k == 0 then None else Some(rows[k - 1].layer)
    {
      var row := rows[k];
      if previous.Some? && previous.value + 1 == layers && row.layer == 0 {
        cycles := cycles + [current];
        current := [];
      } else if previous.Some? && row.layer < previous.value {
        BrokenStays(rows, layers, k + 1, |rows|);
        return Err(BadWrap(k));
      }
      current := current + [row];
      previous := Some(row.layer);
    }
    return Ok(if current == [] then cycles else cycles + [current]);
  }

  lemma {:induction false} BrokenStays(rows: seq<LogRow>, layers: nat, at: nat, upTo: nat)
    requires at <= upTo <= |rows| && CutUpTo(rows, layers, at).Broken?
    ensures CutUpTo(rows, layers, upTo) == CutUpTo(rows, layers, at)
  {
    if at < upTo {
      BrokenStays(rows, layers, at, upTo - 1);
    }
  }

  /** Groups the rows of a cycle by layer. */
  method GroupByLayer(cycle: seq<LogRow>) returns (groups: map<nat, seq<LogRow>>)
    ensures forall l: nat :: (if l in groups then groups[l] else []) == LayerRows(cycle, l)
    ensures forall l :: l in groups ==> groups[l] != []
  {
    groups := map[];
    for k := 0 to |cycle|
      invariant forall l: nat :: (if l in groups then groups[l] else []) == LayerRows(cycle[..k], l)
      invariant forall l :: l in groups ==> groups[l] != []
    {
      var row := cycle[k];
      assert cycle[..k + 1][..k] == cycle[..k];
      groups := groups[row.layer := (if row.layer in groups then groups[row.layer] else []) + [row]];
    }
    assert cycle[..|cycle|] == cycle;
  }

  /** Unions the rows of one request; `repeated` when a row number occurs twice. */
  method UnionRows(mine: seq<LogRow>) returns (repeated: bool, positions: set<nat>)
    ensures repeated <==> RowRepeated(mine)
    ensures !repeated ==> positions == PositionsOf(mine)
  {
    var seen: set<nat> := {};
    positions := {};
    for k := 0 to |mine|
      invariant seen == set i | 0 <= i < k :: mine[i].row
      invariant !RowRepeated(mine[..k])
      invariant positions == PositionsOf(mine[..k])
    {
      var entry := mine[k];
      if entry.row in seen {
        return true, positions;
      }
      assert mine[..k + 1] == mine[..k] + [entry];
      seen := seen + {entry.row};
      positions := positions + set p | p in entry.positions;
    }
    assert mine[..|mine|] == mine;
    repeated := false;
  }

  /** Checks one layer and unions the rows of each of its requests. */
  method ReadLayer(index: nat, entries: seq<LogRow>, layer: nat, requests: set<string>)
    returns (fault: Option<Fault>, counts: map<string, nat>, unions: map<string, set<nat>>)
    ensures fault == LayerFault(index, entries, layer, requests)
    ensures fault.None? ==>
              && counts.Keys == unions.Keys == requests
              && (forall q :: q in requests ==>
                    counts[q] == |RequestRows(entries, q)| && unions[q] == PositionsOf(RequestRows(entries, q)))
  {
    hide OneName, Requests, RequestRows, PositionsOf, RowRepeated, StringLess, Sorted;
    counts, unions := map[], map[];
    var here := Requests(entries);
    if !OneName(entries) {
      return Some(InconsistentNames(index, layer)), counts, unions;
    }
    if layer == 0 && here == {} {
      return Some(NoRealRequest(index)), counts, unions;
    }
    if here != requests {
      return Some(RequestsDiffer(index, layer)), counts, unions;
    }
    var order := SortStrings(here);
    var repeated;
    repeated, counts, unions := UnionRequests(entries, order);
    fault := if repeated then Some(DuplicateRow(index, layer)) else None;
  }

  /** Unions the rows of each request in turn, up to the first that logged a row twice. */
  method UnionRequests(entries: seq<LogRow>, order: seq<string>)
    returns (repeated: bool, counts: map<string, nat>, unions: map<string, set<nat>>)
    ensures repeated <==> exists q :: q in order && RowRepeated(RequestRows(entries, q))
    ensures !repeated ==>
              && (forall q :: q in counts <==> q in order) && (forall q :: q in unions <==> q in order)
              && (forall q :: q in order ==>
                    counts[q] == |RequestRows(entries, q)| && unions[q] == PositionsOf(RequestRows(entries, q)))
  {
    hide RequestRows, PositionsOf, RowRepeated;
    counts, unions := map[], map[];
    for k := 0 to |order|
      invariant (forall q :: q in counts <==> q in order[..k]) && (forall q :: q in unions <==> q in order[..k])
      invariant forall q :: q in order[..k] ==>
                  && !RowRepeated(RequestRows(entries, q))
                  && counts[q] == |RequestRows(entries, q)| && unions[q] == PositionsOf(RequestRows(entries, q))
    {
      var mine := RequestRows(entries, order[k]);
      var again, positions := UnionRows(mine);
      if again {
        assert order[k] in order;
        return true, counts, unions;
      }
      assert order[..k + 1] == order[..k] + [order[k]];
      counts := counts[order[k] := |mine|];
      unions := unions[order[k] := positions];
    }
    assert order[..|order|] == order;
    repeated := false;
  }

  /** The unions of the layers below `upTo`, before steps are known. */
  ghost predicate LayersRead(cycle: seq<LogRow>, requests: set<string>, perLayer: map<(string, nat), UnionTopK>, upTo: nat) {
    forall q, l: nat :: q in requests && l < upTo ==>
      (q, l) in perLayer && perLayer[(q, l)] == UnionRecord(cycle, q, 0, l)
  }

  function LayerUnions(requests: set<string>, name: string, l: nat, counts: map<string, nat>, unions: map<string, set<nat>>)
    : map<(string, nat), UnionTopK>
    requires forall q :: q in requests ==> q in counts && q in unions
  {
    map q | q in requests :: (q, l) := UnionTopK(q, 0, name, l, counts[q], unions[q])
  }

  method ReadLayers(index: nat, cycle: seq<LogRow>, groups: map<nat, seq<LogRow>>, layers: nat)
    returns (fault: Option<Fault>, perLayer: map<(string, nat), UnionTopK>)
    requires forall l: nat :: (if l in groups then groups[l] else []) == LayerRows(cycle, l)
    requires forall l :: 0 <= l < layers ==> l in groups && groups[l] != []
    requires layers > 0
    ensures fault == FaultFrom(index, cycle, layers, 0)
    ensures fault.None? ==> LayersRead(cycle, Requests(LayerRows(cycle, 0)), perLayer, layers)
  {
    hide LayerRows, Requests, RequestRows, PositionsOf, LayerFault, UnionRecord, LayersRead;
    perLayer := map[];
    NoLayersRead(cycle, Requests(groups[0]));
    var requests := Requests(groups[0]);
    for l := 0 to layers
      invariant FaultFrom(index, cycle, layers, 0) == FaultFrom(index, cycle, layers, l)
      invariant LayersRead(cycle, requests, perLayer, l)
    {
      var entries := groups[l];
      assert entries == LayerRows(cycle, l);
      var counts, unions;
      fault, counts, unions := ReadLayer(index, entries, l, requests);
      if fault.Some? {
        return;
      }
      LayerRead(cycle, requests, perLayer, l, counts, unions);
      perLayer := perLayer + LayerUnions(requests, entries[0].layerName, l, counts, unions);
    }
    fault := None;
  }

  lemma NoLayersRead(cycle: seq<LogRow>, requests: set<string>)
    ensures LayersRead(cycle, requests, map[], 0)
  {
  }

  lemma LayerRead(cycle: seq<LogRow>, requests: set<string>, perLayer: map<(string, nat), UnionTopK>, l: nat,
                  counts: map<string, nat>, unions: map<string, set<nat>>)
    requires LayersRead(cycle, requests, perLayer, l) && LayerRows(cycle, l) != []
    requires forall q :: q in requests ==>
               && q in counts && counts[q] == |RequestRows(LayerRows(cycle, l), q)|
               && q in unions && unions[q] == PositionsOf(RequestRows(LayerRows(cycle, l), q))
    ensures var name := LayerRows(cycle, l)[0].layerName;
            LayersRead(cycle, requests, perLayer + LayerUnions(requests, name, l, counts, unions), l + 1)
  {
    hide LayerRows, RequestRows, PositionsOf;
  }

  /** Checks one cycle and lists its unions: by request in sorted order, by layer. */
  method ReadCycle(index: nat, cycle: seq<LogRow>, layers: nat, steps0: map<string, nat>)
    returns (fault: Option<Fault>, records: seq<UnionTopK>, steps: map<string, nat>)
    requires layers > 0
    ensures fault == CycleFault(index, cycle, layers)
    ensures fault.None? ==>
              var order := SortStrings(Requests(LayerRows(cycle, 0)));
              && records == CycleRecords(cycle, layers, order, steps0, |order|)
              && steps == NextSteps(steps0, Requests(LayerRows(cycle, 0)))
  {
    hide LayerRows, Requests, FaultFrom, UnionRecord;
    records, steps := [], steps0;
    var groups := GroupByLayer(cycle);
    if exists l :: 0 <= l < layers && l !in groups {
      return Some(MissingLayer(index)), records, steps;
    }
    var perLayer;
    fault, perLayer := ReadLayers(index, cycle, groups, layers);
    if fault.Some? {
      return;
    }
    records, steps := EmitCycle(cycle, Requests(groups[0]), layers, perLayer, steps0);
  }

  /** The unions of one request, by layer, under its step. */
  method EmitRequest(ghost cycle: seq<LogRow>, ghost requests: set<string>, layers: nat,
                     perLayer: map<(string, nat), UnionTopK>, request: string, step: nat)
    returns (mine: seq<UnionTopK>)
    requires LayersRead(cycle, requests, perLayer, layers) && request in requests
    ensures mine == RequestRecords(cycle, layers, request, step)
  {
    hide UnionRecord;
    mine := [];
    for l := 0 to layers
      invariant mine == RequestRecords(cycle, layers, request, step)[..l]
    {
      mine := mine + [perLayer[(request, l)].(step := step)];
      StepOnly(cycle, request, step, l);
    }
  }

  lemma CountOne(steps: map<string, nat>, seen: set<string>, q: string)
    requires q !in seen
    ensures StepOf(NextSteps(steps, seen), q) == StepOf(steps, q)
    ensures NextSteps(steps, seen)[q := StepOf(steps, q) + 1] == NextSteps(steps, seen + {q})
  {
  }

  lemma CountNone(steps: map<string, nat>)
    ensures NextSteps(steps, {}) == steps
  {
  }

  ghost function FirstOf(order: seq<string>, k: nat): set<string>
    requires k <= |order|
  {
    set q | q in order[..k]
  }

  lemma FirstOfGrows(order: seq<string>, k: nat)
    requires Climbs(order, StringLess) && StrictOrder(StringLess) && k < |order|
    ensures order[k] !in FirstOf(order, k) && FirstOf(order, k + 1) == FirstOf(order, k) + {order[k]}
  {
    assert order[..k + 1] == order[..k] + [order[k]];
  }

  method EmitCycle(ghost cycle: seq<LogRow>, requests: set<string>, layers: nat, perLayer: map<(string, nat), UnionTopK>,
                   steps0: map<string, nat>)
    returns (records: seq<UnionTopK>, steps: map<string, nat>)
    requires LayersRead(cycle, requests, perLayer, layers)
    ensures records == CycleRecords(cycle, layers, SortStrings(requests), steps0, |requests|)
    ensures steps == NextSteps(steps0, requests)
  {
    hide *;
    records, steps := [], steps0;
    var order := SortStrings(requests);
    FirstOfEnds(order, requests);
    CountNone(steps0);
    NoRecords(cycle, layers, order, steps0);
    for k := 0 to |order|
      invariant records == CycleRecords(cycle, layers, order, steps0, k)
      invariant steps == NextSteps(steps0, FirstOf(order, k))
    {
      var request := order[k];
      assert request in order;
      FirstOfGrows(order, k);
      CountOne(steps0, FirstOf(order, k), request);
      NextRecords(cycle, layers, order, steps0, k);
      var step := StepOf(steps, request);
      var mine := EmitRequest(cycle, requests, layers, perLayer, request, step);
      records := records + mine;
      steps := steps[request := step + 1];
    }
  }

  lemma NoRecords(cycle: seq<LogRow>, layers: nat, order: seq<string>, steps: map<string, nat>)
    ensures CycleRecords(cycle, layers, order, steps, 0) == []
  {
  }

  lemma NextRecords(cycle: seq<LogRow>, layers: nat, order: seq<string>, steps: map<string, nat>, k: nat)
    requires k < |order|
    ensures CycleRecords(cycle, layers, order, steps, k + 1)
            == CycleRecords(cycle, layers, order, steps, k)
               + RequestRecords(cycle, layers, order[k], StepOf(steps, order[k]))
  {
  }

  lemma FirstOfEnds(order: seq<string>, requests: set<string>)
    requires forall q :: q in order <==> q in requests
    ensures FirstOf(order, 0) == {} && FirstOf(order, |order|) == requests
  {
    assert order[..|order|] == order;
  }

  lemma StepOnly(cycle: seq<LogRow>, request: string, step: nat, layer: nat)
    ensures UnionRecord(cycle, request, 0, layer).(step := step) == UnionRecord(cycle, request, step, layer)
  {
  }

  method ReconstructUnions(rows: seq<LogRow>, layers: nat) returns (r: Result<seq<UnionTopK>>)
    requires layers > 0
    ensures r == Reconstruct(rows, layers)
  {
    hide LayerRows, Requests, CycleFault, Cycles, CycleRecords, NextSteps;
    var cut := CutLog(rows, layers);
    if cut.Err? {
      return Err(cut.fault);
    }
    var cycles := cut.value;
    var result: seq<UnionTopK> := [];
    var steps: map<string, nat> := map[];
    for k := 0 to |cycles|
      invariant CyclesUpTo(cycles, layers, k) == Ok(Progress(result, steps))
    {
      var fault, records;
      fault, records, steps := ReadCycle(k, cycles[k], layers, steps);
      if fault.Some? {
        FaultStays(cycles, layers, k + 1, |cycles|);
        return Err(fault.value);
      }
      result := result + records;
    }
    return Ok(result);
  }

  lemma {:induction false} FaultStays(cycles: seq<seq<LogRow>>, layers: nat, at: nat, upTo: nat)
    requires at <= upTo <= |cycles| && CyclesUpTo(cycles, layers, at).Err?
    ensures CyclesUpTo(cycles, layers, upTo) == CyclesUpTo(cycles, layers, at)
  {
    hide CyclesUpTo;
    if at < upTo {
      FaultStays(cycles, layers, at, upTo - 1);
      FaultStep(cycles, layers, upTo - 1);
    }
  }

  lemma FaultStep(cycles: seq<seq<LogRow>>, layers: nat, at: nat)
    requires at < |cycles| && CyclesUpTo(cycles, layers, at).Err?
    ensures CyclesUpTo(cycles, layers, at + 1) == CyclesUpTo(cycles, layers, at)
  {
    hide LayerRows, Requests, CycleFault, CycleRecords, NextSteps, SortStrings;
  }
}
