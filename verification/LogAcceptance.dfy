/** Which logs are accepted: with two or more layers, exactly the logs of well-formed traces. */
module LogAcceptance {
  import opened Orders
  import opened LogReconstruction
  import opened LogRoundTrip
  import opened LogConservation

  ghost predicate Climbs(rows: seq<LogRow>) {
    forall i, j :: 0 <= i < j < |rows| ==> rows[i].layer <= rows[j].layer
  }

  /** The cycles one after the other. */
  ghost function Joined(cycles: seq<seq<LogRow>>): seq<LogRow> {
    if cycles == [] then [] else Joined(cycles[..|cycles| - 1]) + cycles[|cycles| - 1]
  }

  lemma JoinedNext(cycles: seq<seq<LogRow>>, cycle: seq<LogRow>)
    ensures Joined(cycles + [cycle]) == Joined(cycles) + cycle
  {
    assert (cycles + [cycle])[..|cycles|] == cycles;
  }

  // ----- Cutting loses nothing and every cycle climbs

  ghost predicate GoodCut(cut: Cut, rows: seq<LogRow>, layers: nat) {
    && cut.Cut? && Joined(cut.cycles) + cut.current == rows
    && Climbs(cut.current) && Parsed(cut.current, layers)
    && (forall c :: c in cut.cycles ==> Climbs(c) && Parsed(c, layers))
    && (rows != [] ==> cut.current != [] && cut.current[|cut.current| - 1] == rows[|rows| - 1])
  }

  lemma {:induction false} CutIsGood(rows: seq<LogRow>, layers: nat, upTo: nat)
    requires upTo <= |rows| && Parsed(rows, layers) && CutUpTo(rows, layers, upTo).Cut?
    ensures GoodCut(CutUpTo(rows, layers, upTo), rows[..upTo], layers)
  {
    if upTo > 0 {
      CutIsGood(rows, layers, upTo - 1);
      CutIsGoodStep(rows, layers, upTo - 1, CutUpTo(rows, layers, upTo - 1));
    }
  }

  lemma CutIsGoodStep(rows: seq<LogRow>, layers: nat, at: nat, before: Cut)
    requires at < |rows| && Parsed(rows, layers) && CutUpTo(rows, layers, at + 1).Cut?
    requires before == CutUpTo(rows, layers, at) && GoodCut(before, rows[..at], layers)
    ensures GoodCut(CutUpTo(rows, layers, at + 1), rows[..at + 1], layers)
  {
    hide CutUpTo, Joined;
    CutStep(rows, layers, at);
    var row := rows[at];
    assert row in rows;
    assert rows[..at + 1] == rows[..at] + [row];
    if at > 0 && rows[at - 1].layer + 1 == layers && row.layer == 0 {
      JoinedNext(before.cycles, before.current);
    } else {
      assert Joined(before.cycles) + (before.current + [row]) == Joined(before.cycles) + before.current + [row];
      ClimbsNext(before.current, row);
    }
  }

  lemma ClimbsNext(rows: seq<LogRow>, row: LogRow)
    requires Climbs(rows) && (rows != [] ==> rows[|rows| - 1].layer <= row.layer)
    ensures Climbs(rows + [row])
  {
    assert forall i :: 0 <= i < |rows| ==> rows[i].layer <= rows[|rows| - 1].layer;
  }

  lemma CyclesAreGood(rows: seq<LogRow>, layers: nat)
    requires Parsed(rows, layers) && Cycles(rows, layers).Ok?
    ensures var cycles := Cycles(rows, layers).value;
            Joined(cycles) == rows && forall c :: c in cycles ==> Climbs(c) && Parsed(c, layers)
  {
    hide CutUpTo, Joined, Climbs, Parsed;
    CutIsGood(rows, layers, |rows|);
    var cut := CutUpTo(rows, layers, |rows|);
    JoinedNext(cut.cycles, cut.current);
    assert rows[..|rows|] == rows;
  }

  // ----- A climbing cycle is the flattening of its layers

  ghost function StepFrom(cycle: seq<LogRow>, layers: nat): Step {
    seq(layers, l requires 0 <= l < layers => LayerRows(cycle, l))
  }

  lemma LayerRowsNext(front: seq<LogRow>, e: LogRow, layer: nat)
    ensures LayerRows(front + [e], layer) == LayerRows(front, layer) + if e.layer == layer then [e] else []
  {
    assert (front + [e])[..|front|] == front;
  }

  lemma {:induction false} FlatGrows(front: seq<LogRow>, e: LogRow, layers: nat, upTo: nat)
    requires upTo <= layers && Climbs(front + [e])
    ensures FlatStep(StepFrom(front + [e], layers), upTo)
            == FlatStep(StepFrom(front, layers), upTo) + if e.layer < upTo then [e] else []
  {
    hide LayerRows, Climbs;
    if upTo > 0 {
      FlatGrows(front, e, layers, upTo - 1);
      LayerRowsNext(front, e, upTo - 1);
      if e.layer < upTo - 1 {
        NoneAbove(front, e, upTo - 1);
      }
    }
  }

  lemma NoneAbove(front: seq<LogRow>, e: LogRow, layer: nat)
    requires Climbs(front + [e]) && e.layer < layer
    ensures LayerRows(front, layer) == []
  {
    LayerRowsMembers(front, layer);
    forall i | 0 <= i < |front|
      ensures front[i].layer <= e.layer
    {
      assert (front + [e])[i] == front[i] && (front + [e])[|front|] == e;
    }
    FirstIsMember(LayerRows(front, layer));
  }

  lemma FirstIsMember(rows: seq<LogRow>)
    ensures rows == [] || exists e :: e in rows
  {
    if rows != [] {
      assert rows[0] in rows;
    }
  }

  lemma {:induction false} NothingToFlatten(layers: nat, upTo: nat)
    requires upTo <= layers
    ensures FlatStep(StepFrom([], layers), upTo) == []
  {
    if upTo > 0 {
      NothingToFlatten(layers, upTo - 1);
    }
  }

  lemma {:induction false} ClimbingIsFlat(cycle: seq<LogRow>, layers: nat)
    requires Climbs(cycle) && Parsed(cycle, layers)
    ensures FlatStep(StepFrom(cycle, layers), layers) == cycle
  {
    hide FlatStep, StepFrom;
    if cycle == [] {
      NothingToFlatten(layers, layers);
    } else {
      var front, e := cycle[..|cycle| - 1], cycle[|cycle| - 1];
      assert cycle == front + [e] && e in cycle;
      ClimbingIsFlat(front, layers);
      FlatGrows(front, e, layers, layers);
    }
  }

  // ----- A cycle without faults is a well-formed step

  lemma {:induction false} NoLayerFault(index: nat, cycle: seq<LogRow>, layers: nat, from: nat, layer: nat)
    requires from <= layer < layers && FaultFrom(index, cycle, layers, from).None?
    ensures LayerFault(index, LayerRows(cycle, layer), layer, Requests(LayerRows(cycle, 0))).None?
    decreases layers - from
  {
    hide LayerRows, LayerFault, Requests;
    if from < layer {
      NoLayerFault(index, cycle, layers, from + 1, layer);
    }
  }

  lemma SoundLayer(index: nat, cycle: seq<LogRow>, layers: nat, layer: nat)
    requires CycleFault(index, cycle, layers).None? && layer < layers
    ensures StepFrom(cycle, layers)[layer] != [] && WellFormedLayer(StepFrom(cycle, layers), layer)
    ensures Requests(StepFrom(cycle, layers)[0]) != {}
  {
    hide LayerRows, Requests, OneName, RepeatsRow, FaultFrom;
    NoLayerFault(index, cycle, layers, 0, layer);
    NoLayerFault(index, cycle, layers, 0, 0);
    LayerRowsMembers(cycle, layer);
  }

  lemma SoundStep(index: nat, cycle: seq<LogRow>, layers: nat)
    requires CycleFault(index, cycle, layers).None? && layers > 0
    ensures WellFormedStep(StepFrom(cycle, layers), layers)
  {
    hide LayerRows, Requests, WellFormedLayer, CycleFault;
    forall l | 0 <= l < layers
      ensures StepFrom(cycle, layers)[l] != [] && WellFormedLayer(StepFrom(cycle, layers), l)
    {
      SoundLayer(index, cycle, layers, l);
    }
    SoundLayer(index, cycle, layers, 0);
  }

  lemma {:induction false} NoCycleFault(cycles: seq<seq<LogRow>>, layers: nat, upTo: nat, k: nat)
    requires k < upTo <= |cycles| && CyclesUpTo(cycles, layers, upTo).Ok?
    ensures CycleFault(k, cycles[k], layers).None?
  {
    hide CyclesUpTo, CycleFault, CycleRecords, LayerRows, Requests, SortStrings;
    LastCycle(cycles, layers, upTo - 1);
    if k < upTo - 1 {
      NoCycleFault(cycles, layers, upTo - 1, k);
    }
  }

  // ----- The whole log

  ghost function TraceFrom(cycles: seq<seq<LogRow>>, layers: nat): seq<Step> {
    seq(|cycles|, s requires 0 <= s < |cycles| => StepFrom(cycles[s], layers))
  }

  lemma {:induction false} TraceIsJoined(cycles: seq<seq<LogRow>>, layers: nat, upTo: nat)
    requires upTo <= |cycles| && forall c :: c in cycles ==> Climbs(c) && Parsed(c, layers)
    ensures FlatTrace(TraceFrom(cycles, layers), upTo) == Joined(cycles[..upTo])
  {
    hide FlatStep, Climbs, Parsed;
    if upTo > 0 {
      TraceIsJoined(cycles, layers, upTo - 1);
      JoinedNext(cycles[..upTo - 1], cycles[upTo - 1]);
      assert cycles[..upTo] == cycles[..upTo - 1] + [cycles[upTo - 1]];
      ClimbingIsFlat(cycles[upTo - 1], layers);
    }
  }

  /** An accepted log is the log of a well-formed trace. */
  lemma AcceptedIsTrace(rows: seq<LogRow>, layers: nat)
    requires layers > 0 && Parsed(rows, layers) && Reconstruct(rows, layers).Ok?
    ensures var trace := TraceFrom(Cycles(rows, layers).value, layers);
            WellFormedTrace(trace, layers) && FlatTrace(trace, |trace|) == rows
  {
    hide Cycles, CyclesUpTo, Climbs, Parsed, CycleFault, StepFrom, WellFormedStep, FlatTrace, Joined;
    var cycles := Cycles(rows, layers).value;
    CyclesAreGood(rows, layers);
    TraceIsJoined(cycles, layers, |cycles|);
    assert cycles[..|cycles|] == cycles;
    forall s | 0 <= s < |cycles|
      ensures WellFormedStep(StepFrom(cycles[s], layers), layers)
    {
      NoCycleFault(cycles, layers, |cycles|, s);
      SoundStep(s, cycles[s], layers);
    }
  }

  /**
    With two or more layers a log is accepted exactly when it is the log of a well-formed trace:
    every step climbs through all layers, each under one name, for the same real requests, no row twice.
   */
  lemma AcceptedExactly(rows: seq<LogRow>, layers: nat)
    requires layers >= 2 && Parsed(rows, layers)
    ensures Reconstruct(rows, layers).Ok?
            <==> exists trace :: WellFormedTrace(trace, layers) && FlatTrace(trace, |trace|) == rows
  {
    hide Reconstruct, WellFormedTrace, FlatTrace, Parsed;
    if Reconstruct(rows, layers).Ok? {
      AcceptedIsTrace(rows, layers);
    }
    if trace: seq<Step> :| WellFormedTrace(trace, layers) && FlatTrace(trace, |trace|) == rows {
      ReconstructionInvertsFlattening(trace, layers);
    }
  }

  // ----- Where cutting stops

  /** The layer falls at `i`, and not from the last to the first. */
  ghost predicate BadDrop(rows: seq<LogRow>, layers: nat, i: nat) {
    0 < i < |rows| && rows[i].layer < rows[i - 1].layer && !(rows[i - 1].layer + 1 == layers && rows[i].layer == 0)
  }

  lemma {:induction false} FirstBadDrop(rows: seq<LogRow>, layers: nat, upTo: nat)
    requires upTo <= |rows|
    ensures var cut := CutUpTo(rows, layers, upTo);
            if cut.Broken? then
              cut.at < upTo && BadDrop(rows, layers, cut.at) && forall i: nat :: i < cut.at ==> !BadDrop(rows, layers, i)
            else forall i: nat :: i < upTo ==> !BadDrop(rows, layers, i)
  {
    if upTo > 0 {
      FirstBadDrop(rows, layers, upTo - 1);
    }
  }

  /** A bad wrap is reported exactly when there is one, at the first. */
  lemma BadWrapExactly(rows: seq<LogRow>, layers: nat, at: nat)
    ensures Reconstruct(rows, layers) == Err(BadWrap(at))
            <==> BadDrop(rows, layers, at) && forall i: nat :: i < at ==> !BadDrop(rows, layers, i)
  {
    hide CutUpTo, CyclesUpTo;
    FirstBadDrop(rows, layers, |rows|);
    var cycles := Cycles(rows, layers);
    if cycles.Ok? {
      OtherFaults(cycles.value, layers, |cycles.value|);
    }
  }

  lemma {:induction false} OtherFaults(cycles: seq<seq<LogRow>>, layers: nat, upTo: nat)
    requires upTo <= |cycles|
    ensures CyclesUpTo(cycles, layers, upTo).Err? ==> !CyclesUpTo(cycles, layers, upTo).fault.BadWrap?
  {
    hide CyclesUpTo, CycleFault;
    if upTo == 0 {
      NoCycles(cycles, layers);
    } else {
      OtherFaults(cycles, layers, upTo - 1);
      FaultyCycle(cycles, layers, upTo - 1);
      OtherCycleFault(upTo - 1, cycles[upTo - 1], layers);
    }
  }

  lemma FaultyCycle(cycles: seq<seq<LogRow>>, layers: nat, k: nat)
    requires k < |cycles|
    ensures CyclesUpTo(cycles, layers, k + 1).Err? ==>
              if CyclesUpTo(cycles, layers, k).Err? then CyclesUpTo(cycles, layers, k + 1) == CyclesUpTo(cycles, layers, k)
              else CycleFault(k, cycles[k], layers).Some?
                   && CyclesUpTo(cycles, layers, k + 1).fault == CycleFault(k, cycles[k], layers).value
  {
    hide CycleFault, CycleRecords, LayerRows, Requests, SortStrings, NextSteps;
  }

  lemma OtherCycleFault(index: nat, cycle: seq<LogRow>, layers: nat)
    ensures CycleFault(index, cycle, layers).Some? ==> !CycleFault(index, cycle, layers).value.BadWrap?
  {
    OtherFault(index, cycle, layers, 0);
  }

  lemma {:induction false} OtherFault(index: nat, cycle: seq<LogRow>, layers: nat, from: nat)
    requires from <= layers
    ensures FaultFrom(index, cycle, layers, from).Some? ==> !FaultFrom(index, cycle, layers, from).value.BadWrap?
    decreases layers - from
  {
    if from < layers {
      OtherFault(index, cycle, layers, from + 1);
    }
  }
}
