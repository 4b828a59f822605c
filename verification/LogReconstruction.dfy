/**
  Rebuilding decode steps from a flattened per-layer log.

  A step logs its rows layer by layer.  The log is cut wherever the layer wraps from the last to
  the first, each cycle is checked, and every request of a cycle yields one union per layer.
 */
module LogReconstruction {
  import opened Options
  import opened Orders

  /** One clean record of the log: a row of top-k positions of a request in a layer. */
  datatype LogRow = LogRow(layerName: string, layer: nat, row: nat, request: string, valid: nat, positions: seq<nat>)

  datatype UnionTopK = UnionTopK(request: string, step: nat, layerName: string, layer: nat, rowCount: nat, positions: set<nat>)

  datatype Fault =
    | BadWrap(at: nat)
    | MissingLayer(cycle: nat)
    | InconsistentNames(cycle: nat, layer: nat)
    | NoRealRequest(cycle: nat)
    | RequestsDiffer(cycle: nat, layer: nat)
    | DuplicateRow(cycle: nat, layer: nat)

  datatype Result<+T> = Ok(value: T) | Err(fault: Fault)

  /** The id of rows that belong to no request. */
  const PLACEHOLDER: string := "?"

  // ----- Cutting the log into cycles

  datatype Cut = Cut(cycles: seq<seq<LogRow>>, current: seq<LogRow>) | Broken(at: nat)

  function CutUpTo(rows: seq<LogRow>, layers: nat, upTo: nat): Cut
    requires upTo <= |rows|
  {
    if upTo == 0 then Cut([], [])
    else
      var before := CutUpTo(rows, layers, upTo - 1);
      if before.Broken? then before
      else
        var row := rows[upTo - 1];
        if upTo > 1 && rows[upTo - 2].layer + 1 == layers && row.layer == 0 then
          Cut(before.cycles + [before.current], [row])
        else if upTo > 1 && row.layer < rows[upTo - 2].layer then Broken(upTo - 1)
        else Cut(before.cycles, before.current + [row])
  }

  function Cycles(rows: seq<LogRow>, layers: nat): Result<seq<seq<LogRow>>> {
    var cut := CutUpTo(rows, layers, |rows|);
    if cut.Broken? then Err(BadWrap(cut.at))
    else Ok(if cut.current == [] then cut.cycles else cut.cycles + [cut.current])
  }

  // ----- Checking a cycle

  /** Rows of one layer, in log order. */
  function LayerRows(cycle: seq<LogRow>, layer: nat): seq<LogRow> {
    if cycle == [] then []
    else
      var k := |cycle| - 1;
      LayerRows(cycle[..k], layer) + if cycle[k].layer == layer then [cycle[k]] else []
  }

  /** Rows of one request, in log order. */
  function RequestRows(entries: seq<LogRow>, request: string): seq<LogRow> {
    if entries == [] then []
    else
      var k := |entries| - 1;
      RequestRows(entries[..k], request) + if entries[k].request == request then [entries[k]] else []
  }

  function Requests(entries: seq<LogRow>): set<string> {
    set e | e in entries && e.request != PLACEHOLDER :: e.request
  }

  lemma RealRequests(entries: seq<LogRow>)
    ensures PLACEHOLDER !in Requests(entries)
  {
  }

  lemma RequestListed(entries: seq<LogRow>, e: LogRow)
    requires e in entries && e.request != PLACEHOLDER
    ensures e.request in Requests(entries)
  {
  }

  predicate OneName(entries: seq<LogRow>) {
    forall i, j :: 0 <= i < j < |entries| ==> entries[i].layerName == entries[j].layerName
  }

  predicate RowRepeated(rows: seq<LogRow>) {
    exists i, j :: 0 <= i < j < |rows| && rows[i].row == rows[j].row
  }

  /** Some real request logged the same row twice. */
  predicate RepeatsRow(entries: seq<LogRow>) {
    exists q :: q in Requests(entries) && RowRepeated(RequestRows(entries, q))
  }

  function LayerFault(index: nat, entries: seq<LogRow>, layer: nat, requests: set<string>): Option<Fault> {
    if !OneName(entries) then Some(InconsistentNames(index, layer))
    else if layer == 0 && Requests(entries) == {} then Some(NoRealRequest(index))
    else if Requests(entries) != requests then Some(RequestsDiffer(index, layer))
    else if RepeatsRow(entries) then Some(DuplicateRow(index, layer))
    else None
  }

  /** The first fault of the layers from `layer` on. */
  function FaultFrom(index: nat, cycle: seq<LogRow>, layers: nat, layer: nat): Option<Fault>
    requires layer <= layers
    decreases layers - layer
  {
    if layer == layers then None
    else
      var fault := LayerFault(index, LayerRows(cycle, layer), layer, Requests(LayerRows(cycle, 0)));
      if fault.Some? then fault else FaultFrom(index, cycle, layers, layer + 1)
  }

  function CycleFault(index: nat, cycle: seq<LogRow>, layers: nat): Option<Fault> {
    if exists l :: 0 <= l < layers && LayerRows(cycle, l) == [] then Some(MissingLayer(index))
    else FaultFrom(index, cycle, layers, 0)
  }

  // ----- Records of a cycle

  function PositionsOf(entries: seq<LogRow>): set<nat> {
    set e, p | e in entries && p in e.positions :: p
  }

  function UnionRecord(cycle: seq<LogRow>, request: string, step: nat, layer: nat): UnionTopK {
    var entries := LayerRows(cycle, layer);
    var mine := RequestRows(entries, request);
    UnionTopK(request, step, if entries == [] then "" else entries[0].layerName, layer, |mine|, PositionsOf(mine))
  }

  function RequestRecords(cycle: seq<LogRow>, layers: nat, request: string, step: nat): seq<UnionTopK> {
    seq(layers, l requires 0 <= l < layers => UnionRecord(cycle, request, step, l))
  }

  function StepOf(steps: map<string, nat>, request: string): nat {
    if request in steps then steps[request] else 0
  }

  /** Records of the first `upTo` requests of a cycle; a request's step is how often it was seen before. */
  function CycleRecords(cycle: seq<LogRow>, layers: nat, order: seq<string>, steps: map<string, nat>, upTo: nat): seq<UnionTopK>
    requires upTo <= |order|
  {
    if upTo == 0 then []
    else CycleRecords(cycle, layers, order, steps, upTo - 1)
         + RequestRecords(cycle, layers, order[upTo - 1], StepOf(steps, order[upTo - 1]))
  }

  function NextSteps(steps: map<string, nat>, requests: set<string>): map<string, nat> {
    map q | q in steps.Keys + requests :: StepOf(steps, q) + if q in requests then 1 else 0
  }

  datatype Progress = Progress(records: seq<UnionTopK>, steps: map<string, nat>)

  function CyclesUpTo(cycles: seq<seq<LogRow>>, layers: nat, upTo: nat): Result<Progress>
    requires upTo <= |cycles|
  {
    if upTo == 0 then Ok(Progress([], map[]))
    else
      var before := CyclesUpTo(cycles, layers, upTo - 1);
      if before.Err? then before
      else
        var cycle := cycles[upTo - 1];
        var fault := CycleFault(upTo - 1, cycle, layers);
        if fault.Some? then Err(fault.value)
        else
          var requests := Requests(LayerRows(cycle, 0));
          var order := SortStrings(requests);
          Ok(Progress(before.value.records + CycleRecords(cycle, layers, order, before.value.steps, |order|),
                      NextSteps(before.value.steps, requests)))
  }

  function Reconstruct(rows: seq<LogRow>, layers: nat): Result<seq<UnionTopK>> {
    var cycles := Cycles(rows, layers);
    if cycles.Err? then Err(cycles.fault)
    else
      var progress := CyclesUpTo(cycles.value, layers, |cycles.value|);
      if progress.Err? then Err(progress.fault) else Ok(progress.value.records)
  }
}
