/** No row of an accepted log is lost or counted twice. */
module LogConservation {
  import opened Orders
  import opened LogReconstruction

  ghost function CountedRows(records: seq<UnionTopK>): nat {
    if records == [] then 0 else CountedRows(records[..|records| - 1]) + records[|records| - 1].rowCount
  }

  lemma {:induction false} CountedConcat(a: seq<UnionTopK>, b: seq<UnionTopK>)
    ensures CountedRows(a + b) == CountedRows(a) + CountedRows(b)
  {
    if b == [] {
      assert a + b == a;
    } else {
      var k := |b| - 1;
      CountedConcat(a, b[..k]);
      assert (a + b)[..|a + b| - 1] == a + b[..k];
    }
  }

  /** Rows that belong to a request. */
  ghost function RealRows(rows: seq<LogRow>): nat {
    if rows == [] then 0
    else RealRows(rows[..|rows| - 1]) + if rows[|rows| - 1].request != PLACEHOLDER then 1 else 0
  }

  lemma {:induction false} RealRowsOfAll(rows: seq<LogRow>)
    ensures RealRows(rows) <= |rows|
    ensures RealRows(rows) == |rows| <==> forall e :: e in rows ==> e.request != PLACEHOLDER
  {
    if rows != [] {
      var k := |rows| - 1;
      RealRowsOfAll(rows[..k]);
      assert rows == rows[..k] + [rows[k]];
    }
  }

  // ----- Counting a cycle cell by cell

  ghost function Cell(cycle: seq<LogRow>, request: string, layer: nat): nat {
    |RequestRows(LayerRows(cycle, layer), request)|
  }

  ghost function CellsUpTo(cycle: seq<LogRow>, request: string, upTo: nat): nat {
    if upTo == 0 then 0 else CellsUpTo(cycle, request, upTo - 1) + Cell(cycle, request, upTo - 1)
  }

  ghost function GridUpTo(cycle: seq<LogRow>, layers: nat, order: seq<string>, upTo: nat): nat
    requires upTo <= |order|
  {
    if upTo == 0 then 0 else GridUpTo(cycle, layers, order, upTo - 1) + CellsUpTo(cycle, order[upTo - 1], layers)
  }

  lemma CellAppend(cycle: seq<LogRow>, e: LogRow, request: string, layer: nat)
    ensures Cell(cycle + [e], request, layer)
            == Cell(cycle, request, layer) + if e.layer == layer && e.request == request then 1 else 0
  {
    assert (cycle + [e])[..|cycle|] == cycle;
    var before := LayerRows(cycle, layer);
    if e.layer == layer {
      assert (before + [e])[..|before|] == before;
    } else {
      assert LayerRows(cycle + [e], layer) == before;
    }
  }

  lemma {:induction false} CellsAppend(cycle: seq<LogRow>, e: LogRow, request: string, upTo: nat)
    ensures CellsUpTo(cycle + [e], request, upTo)
            == CellsUpTo(cycle, request, upTo) + if e.layer < upTo && e.request == request then 1 else 0
  {
    hide Cell;
    if upTo > 0 {
      CellsAppend(cycle, e, request, upTo - 1);
      CellAppend(cycle, e, request, upTo - 1);
    }
  }

  lemma {:induction false} GridAppend(cycle: seq<LogRow>, e: LogRow, layers: nat, order: seq<string>, upTo: nat)
    requires upTo <= |order| && e.layer < layers
    requires forall i, j :: 0 <= i < j < |order| ==> order[i] != order[j]
    ensures GridUpTo(cycle + [e], layers, order, upTo)
            == GridUpTo(cycle, layers, order, upTo) + if e.request in order[..upTo] then 1 else 0
  {
    hide CellsUpTo;
    if upTo > 0 {
      GridAppend(cycle, e, layers, order, upTo - 1);
      CellsAppend(cycle, e, order[upTo - 1], layers);
      assert order[..upTo] == order[..upTo - 1] + [order[upTo - 1]];
    }
  }

  lemma {:induction false} EmptyGrid(layers: nat, order: seq<string>, upTo: nat)
    requires upTo <= |order|
    ensures GridUpTo([], layers, order, upTo) == 0
  {
    if upTo > 0 {
      EmptyGrid(layers, order, upTo - 1);
      EmptyCells(order[upTo - 1], layers);
    }
  }

  lemma {:induction false} EmptyCells(request: string, upTo: nat)
    ensures CellsUpTo([], request, upTo) == 0
  {
    if upTo > 0 {
      EmptyCells(request, upTo - 1);
    }
  }

  /** Every row of the cycle that belongs to a request falls into exactly one cell. */
  lemma {:induction false} GridCountsRows(cycle: seq<LogRow>, layers: nat, order: seq<string>)
    requires forall i, j :: 0 <= i < j < |order| ==> order[i] != order[j]
    requires forall e :: e in cycle ==> e.layer < layers && (e.request in order <==> e.request != PLACEHOLDER)
    ensures GridUpTo(cycle, layers, order, |order|) == RealRows(cycle)
  {
    if cycle == [] {
      EmptyGrid(layers, order, |order|);
    } else {
      var k := |cycle| - 1;
      GridCountsRows(cycle[..k], layers, order);
      assert cycle == cycle[..k] + [cycle[k]] && order[..|order|] == order;
      GridAppend(cycle[..k], cycle[k], layers, order, |order|);
    }
  }

  lemma {:induction false} RecordsCountCells(cycle: seq<LogRow>, layers: nat, request: string, step: nat, upTo: nat)
    requires upTo <= layers
    ensures CountedRows(RequestRecords(cycle, layers, request, step)[..upTo]) == CellsUpTo(cycle, request, upTo)
  {
    if upTo > 0 {
      RecordsCountCells(cycle, layers, request, step, upTo - 1);
      var records := RequestRecords(cycle, layers, request, step);
      assert records[..upTo][..upTo - 1] == records[..upTo - 1];
    }
  }

  lemma {:induction false} CycleCountsGrid(cycle: seq<LogRow>, layers: nat, order: seq<string>, steps: map<string, nat>, upTo: nat)
    requires upTo <= |order|
    ensures CountedRows(CycleRecords(cycle, layers, order, steps, upTo)) == GridUpTo(cycle, layers, order, upTo)
  {
    hide RequestRecords, CellsUpTo;
    if upTo > 0 {
      CycleCountsGrid(cycle, layers, order, steps, upTo - 1);
      var records := RequestRecords(cycle, layers, order[upTo - 1], StepOf(steps, order[upTo - 1]));
      CountedConcat(CycleRecords(cycle, layers, order, steps, upTo - 1), records);
      RecordsLength(cycle, layers, order[upTo - 1], StepOf(steps, order[upTo - 1]));
      RecordsCountCells(cycle, layers, order[upTo - 1], StepOf(steps, order[upTo - 1]), layers);
      assert records[..layers] == records;
    }
  }

  lemma RecordsLength(cycle: seq<LogRow>, layers: nat, request: string, step: nat)
    ensures |RequestRecords(cycle, layers, request, step)| == layers
  {
  }

  // ----- Accepted cycles

  lemma {:induction false} LayerRowsMembers(cycle: seq<LogRow>, layer: nat)
    ensures forall e :: e in LayerRows(cycle, layer) <==> e in cycle && e.layer == layer
  {
    if cycle != [] {
      var k := |cycle| - 1;
      LayerRowsMembers(cycle[..k], layer);
      assert cycle == cycle[..k] + [cycle[k]];
    }
  }

  lemma {:induction false} SameRequestsEverywhere(index: nat, cycle: seq<LogRow>, layers: nat, from: nat, layer: nat)
    requires from <= layer < layers && FaultFrom(index, cycle, layers, from).None?
    ensures Requests(LayerRows(cycle, layer)) == Requests(LayerRows(cycle, 0))
    decreases layers - from
  {
    hide LayerRows, Requests, OneName, RepeatsRow;
    if from < layer {
      SameRequestsEverywhere(index, cycle, layers, from + 1, layer);
    }
  }

  /** A log as the parser hands it over: layers in range. */
  ghost predicate Parsed(rows: seq<LogRow>, layers: nat) {
    forall e :: e in rows ==> e.layer < layers
  }

  lemma AcceptedCycleCounts(index: nat, cycle: seq<LogRow>, layers: nat, steps: map<string, nat>)
    requires Parsed(cycle, layers) && layers > 0 && CycleFault(index, cycle, layers).None?
    ensures var order := SortStrings(Requests(LayerRows(cycle, 0)));
            CountedRows(CycleRecords(cycle, layers, order, steps, |order|)) == RealRows(cycle)
  {
    hide LayerRows, CycleRecords, Requests, LayerFault;
    var order := SortStrings(Requests(LayerRows(cycle, 0)));
    forall i, j | 0 <= i < j < |order|
      ensures order[i] != order[j]
    {
      assert StringLess(order[i], order[j]);
    }
    RealRequests(LayerRows(cycle, 0));
    forall e | e in cycle && e.request != PLACEHOLDER
      ensures e.request in order
    {
      LayerRowsMembers(cycle, e.layer);
      SameRequestsEverywhere(index, cycle, layers, 0, e.layer);
      RequestListed(LayerRows(cycle, e.layer), e);
    }
    GridCountsRows(cycle, layers, order);
    CycleCountsGrid(cycle, layers, order, steps, |order|);
  }

  // ----- The whole log

  ghost function RowTotal(cycles: seq<seq<LogRow>>, upTo: nat): nat
    requires upTo <= |cycles|
  {
    if upTo == 0 then 0 else RowTotal(cycles, upTo - 1) + RealRows(cycles[upTo - 1])
  }

  lemma {:induction false} RowTotalPrefix(a: seq<seq<LogRow>>, b: seq<seq<LogRow>>, upTo: nat)
    requires a <= b && upTo <= |a|
    ensures RowTotal(a, upTo) == RowTotal(b, upTo)
  {
    if upTo > 0 {
      RowTotalPrefix(a, b, upTo - 1);
    }
  }

  lemma RealRowsNext(rows: seq<LogRow>, e: LogRow)
    ensures RealRows(rows + [e]) == RealRows(rows) + if e.request != PLACEHOLDER then 1 else 0
  {
    assert (rows + [e])[..|rows|] == rows;
  }

  lemma RealRowsNone()
    ensures RealRows([]) == 0
  {
  }

  lemma NoRows()
    ensures RowTotal([], 0) == 0
  {
  }

  lemma CloseCycle(cycles: seq<seq<LogRow>>, current: seq<LogRow>)
    ensures RowTotal(cycles + [current], |cycles| + 1) == RowTotal(cycles, |cycles|) + RealRows(current)
  {
    hide RowTotal, RealRows;
    var closed := cycles + [current];
    RowTotalPrefix(cycles, closed, |cycles|);
    RowTotalNext(closed, |cycles|);
  }

  lemma RowTotalNext(cycles: seq<seq<LogRow>>, k: nat)
    requires k < |cycles|
    ensures RowTotal(cycles, k + 1) == RowTotal(cycles, k) + RealRows(cycles[k])
  {
    hide RealRows;
  }

  /** Cutting keeps every row. */
  lemma {:induction false} CutKeepsRows(rows: seq<LogRow>, layers: nat, upTo: nat)
    requires upTo <= |rows| && CutUpTo(rows, layers, upTo).Cut? && Parsed(rows, layers)
    ensures var cut := CutUpTo(rows, layers, upTo);
            && RowTotal(cut.cycles, |cut.cycles|) + RealRows(cut.current) == RealRows(rows[..upTo])
            && Parsed(cut.current, layers)
            && (forall i :: 0 <= i < |cut.cycles| ==> Parsed(cut.cycles[i], layers))
  {
    hide RealRows, RowTotal;
    RealRowsNone();
    if upTo > 0 {
      CutKeepsRows(rows, layers, upTo - 1);
      var before, row := CutUpTo(rows, layers, upTo - 1), rows[upTo - 1];
      CloseCycle(before.cycles, before.current);
      assert row in rows;
      RealRowsNext(rows[..upTo - 1], row);
      RealRowsNext(before.current, row);
      RealRowsNext([], row);
      assert rows[..upTo] == rows[..upTo - 1] + [row] && [] + [row] == [row];
    } else {
      assert rows[..0] == [];
      NoRows();
    }
  }

  lemma NoCycles(cycles: seq<seq<LogRow>>, layers: nat)
    ensures CyclesUpTo(cycles, layers, 0) == Ok(Progress([], map[])) && CountedRows([]) == 0
  {
  }

  lemma LastCycle(cycles: seq<seq<LogRow>>, layers: nat, k: nat)
    requires k < |cycles| && CyclesUpTo(cycles, layers, k + 1).Ok?
    ensures CyclesUpTo(cycles, layers, k).Ok? && CycleFault(k, cycles[k], layers).None?
    ensures var before := CyclesUpTo(cycles, layers, k).value;
            var order := SortStrings(Requests(LayerRows(cycles[k], 0)));
            CyclesUpTo(cycles, layers, k + 1).value.records
            == before.records + CycleRecords(cycles[k], layers, order, before.steps, |order|)
  {
    hide CycleRecords, LayerRows, Requests, CycleFault;
  }

  lemma {:induction false} RecordsCountRows(cycles: seq<seq<LogRow>>, layers: nat, upTo: nat)
    requires upTo <= |cycles| && layers > 0 && CyclesUpTo(cycles, layers, upTo).Ok?
    requires forall i :: 0 <= i < |cycles| ==> Parsed(cycles[i], layers)
    ensures CountedRows(CyclesUpTo(cycles, layers, upTo).value.records) == RowTotal(cycles, upTo)
  {
    hide CycleRecords, LayerRows, Requests, CycleFault, Parsed, CyclesUpTo, RealRows, CountedRows, SortStrings;
    if upTo == 0 {
      NoCycles(cycles, layers);
    } else {
      var k := upTo - 1;
      LastCycle(cycles, layers, k);
      RecordsCountRows(cycles, layers, k);
      var before := CyclesUpTo(cycles, layers, k).value;
      AcceptedCycleCounts(k, cycles[k], layers, before.steps);
      var order := SortStrings(Requests(LayerRows(cycles[k], 0)));
      CountedConcat(before.records, CycleRecords(cycles[k], layers, order, before.steps, |order|));
    }
  }

  /**
    The row counts of an accepted log add up to the number of its rows that belong to a request, so
    to the number of all its rows exactly when every row does.
   */
  lemma AcceptedRowsAreCounted(rows: seq<LogRow>, layers: nat)
    requires Parsed(rows, layers) && layers > 0 && Reconstruct(rows, layers).Ok?
    ensures CountedRows(Reconstruct(rows, layers).value) == RealRows(rows)
    ensures CountedRows(Reconstruct(rows, layers).value) == |rows| <==> forall e :: e in rows ==> e.request != PLACEHOLDER
  {
    hide Cycles, CyclesUpTo, Parsed, RealRows, CountedRows, RowTotal;
    CyclesKeepRows(rows, layers);
    var cycles := Cycles(rows, layers).value;
    RecordsCountRows(cycles, layers, |cycles|);
    RealRowsOfAll(rows);
  }

  lemma CyclesKeepRows(rows: seq<LogRow>, layers: nat)
    requires Parsed(rows, layers) && Cycles(rows, layers).Ok?
    ensures var cycles := Cycles(rows, layers).value;
            RowTotal(cycles, |cycles|) == RealRows(rows) && forall i :: 0 <= i < |cycles| ==> Parsed(cycles[i], layers)
  {
    hide CutUpTo, Parsed, RealRows, RowTotal;
    RealRowsNone();
    CutKeepsRows(rows, layers, |rows|);
    var cut := CutUpTo(rows, layers, |rows|);
    CloseCycle(cut.cycles, cut.current);
    assert rows[..|rows|] == rows;
  }
}
