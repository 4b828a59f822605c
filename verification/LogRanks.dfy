/**
  A rank's log as part of the flattened trace.

  A rank keeps some rows of the trace in their order.  Its step counter follows the trace exactly
  when the log starts in the first step and shows every step boundary as a drop of the layer.
 */
module LogRanks {
  import opened LogReconstruction
  import opened LogRoundTrip
  import opened LogMerge

  /** The step that position `pos` of the flattened trace belongs to. */
  ghost function StepOf(trace: seq<Step>, upTo: nat, pos: nat): nat
    requires upTo <= |trace| && pos < |FlatTrace(trace, upTo)|
  {
    if pos < |FlatTrace(trace, upTo - 1)| then StepOf(trace, upTo - 1, pos) else upTo - 1
  }

  lemma {:induction false} FlatRow(trace: seq<Step>, upTo: nat, pos: nat)
    requires upTo <= |trace| && pos < |FlatTrace(trace, upTo)|
    ensures var s := StepOf(trace, upTo, pos);
            && s < upTo && |FlatTrace(trace, s)| <= pos < |FlatTrace(trace, s)| + |FlatStep(trace[s], |trace[s]|)|
            && FlatTrace(trace, upTo)[pos] == FlatStep(trace[s], |trace[s]|)[pos - |FlatTrace(trace, s)|]
  {
    hide FlatStep;
    if pos < |FlatTrace(trace, upTo - 1)| {
      FlatRow(trace, upTo - 1, pos);
    }
  }

  lemma {:induction false} StepsClimb(trace: seq<Step>, upTo: nat, a: nat, b: nat)
    requires upTo <= |trace| && a <= b < |FlatTrace(trace, upTo)|
    ensures StepOf(trace, upTo, a) <= StepOf(trace, upTo, b)
  {
    hide FlatStep;
    if b < |FlatTrace(trace, upTo - 1)| {
      StepsClimb(trace, upTo - 1, a, b);
    } else {
      FlatRow(trace, upTo, a);
    }
  }

  lemma {:induction false} StepMember(step: Step, upTo: nat, i: nat)
    requires upTo <= |step| && i < |FlatStep(step, upTo)|
    ensures exists l :: 0 <= l < upTo && FlatStep(step, upTo)[i] in step[l]
  {
    if i < |FlatStep(step, upTo - 1)| {
      StepMember(step, upTo - 1, i);
    }
  }

  /** The row at a position is a row of its step, in its own layer. */
  lemma FlatRowOccurs(trace: seq<Step>, layers: nat, pos: nat)
    requires WellFormedTrace(trace, layers) && pos < |FlatTrace(trace, |trace|)|
    ensures var e := FlatTrace(trace, |trace|)[pos];
            Occurs(trace, Key(StepOf(trace, |trace|, pos), e.layer, e.request, e.row), e)
  {
    hide FlatTrace, FlatStep, StepOf;
    FlatRow(trace, |trace|, pos);
    var s := StepOf(trace, |trace|, pos);
    StepMember(trace[s], |trace[s]|, pos - |FlatTrace(trace, s)|);
    var l :| 0 <= l < |trace[s]| && FlatTrace(trace, |trace|)[pos] in trace[s][l];
    assert WellFormedStep(trace[s], layers);
    assert WellFormedLayer(trace[s], l);
  }

  /** Within a step layers climb. */
  lemma SameStepClimbs(trace: seq<Step>, layers: nat, a: nat, b: nat)
    requires WellFormedTrace(trace, layers) && a <= b < |FlatTrace(trace, |trace|)|
    requires StepOf(trace, |trace|, a) == StepOf(trace, |trace|, b)
    ensures FlatTrace(trace, |trace|)[a].layer <= FlatTrace(trace, |trace|)[b].layer
  {
    hide FlatTrace, FlatStep, StepOf, WellFormedLayer;
    FlatRow(trace, |trace|, a);
    FlatRow(trace, |trace|, b);
    var s := StepOf(trace, |trace|, a);
    assert WellFormedStep(trace[s], layers);
    FlatStepClimbs(trace[s], layers, layers);
  }

  // ----- A rank's part

  /** The rows at increasing positions of the flattened trace. */
  ghost predicate PartOfTrace(trace: seq<Step>, rows: seq<LogRow>, at: seq<nat>) {
    && |at| == |rows|
    && (forall i :: 0 <= i < |at| ==> at[i] < |FlatTrace(trace, |trace|)| && rows[i] == FlatTrace(trace, |trace|)[at[i]])
    && (forall i, j :: 0 <= i < j < |at| ==> at[i] < at[j])
  }

  ghost function StepsOf(trace: seq<Step>, rows: seq<LogRow>, at: seq<nat>): (steps: seq<nat>)
    requires PartOfTrace(trace, rows, at)
    ensures |steps| == |rows| && forall i :: 0 <= i < |rows| ==> steps[i] == StepOf(trace, |trace|, at[i])
  {
    seq(|rows|, i requires 0 <= i < |rows| => StepOf(trace, |trace|, at[i]))
  }

  /** The log starts in the first step, misses no step before its last, and drops a layer at every step boundary. */
  ghost predicate ShowsBoundaries(rows: seq<LogRow>, steps: seq<nat>)
    requires |rows| == |steps|
  {
    && (rows != [] ==> steps[0] == 0)
    && (forall i :: 0 < i < |rows| && steps[i] != steps[i - 1] ==>
         steps[i] == steps[i - 1] + 1 && rows[i].layer < rows[i - 1].layer)
  }

  lemma NextStep(trace: seq<Step>, layers: nat, rows: seq<LogRow>, at: seq<nat>, i: nat)
    requires WellFormedTrace(trace, layers) && PartOfTrace(trace, rows, at) && 0 < i < |rows|
    ensures var steps := StepsOf(trace, rows, at);
            steps[i - 1] <= steps[i] && (steps[i] == steps[i - 1] ==> rows[i - 1].layer <= rows[i].layer)
  {
    hide FlatTrace, StepOf, WellFormedTrace;
    StepsClimb(trace, |trace|, at[i - 1], at[i]);
    if StepOf(trace, |trace|, at[i]) == StepOf(trace, |trace|, at[i - 1]) {
      SameStepClimbs(trace, layers, at[i - 1], at[i]);
    }
  }

  lemma {:induction false} CountedStep(trace: seq<Step>, layers: nat, rows: seq<LogRow>, at: seq<nat>, i: nat)
    requires WellFormedTrace(trace, layers) && PartOfTrace(trace, rows, at) && i < |rows|
    requires ShowsBoundaries(rows, StepsOf(trace, rows, at))
    ensures StepAt(rows, i) == StepsOf(trace, rows, at)[i]
  {
    hide PartOfTrace, WellFormedTrace;
    if i > 0 {
      CountedStep(trace, layers, rows, at, i - 1);
      NextStep(trace, layers, rows, at, i);
    }
  }

  /** Counting drops finds the step of every row if and only if the log shows its step boundaries. */
  lemma StepsRecoveredExactly(trace: seq<Step>, layers: nat, rows: seq<LogRow>, at: seq<nat>)
    requires WellFormedTrace(trace, layers) && PartOfTrace(trace, rows, at)
    ensures (forall i :: 0 <= i < |rows| ==> StepAt(rows, i) == StepsOf(trace, rows, at)[i])
            <==> ShowsBoundaries(rows, StepsOf(trace, rows, at))
  {
    hide PartOfTrace, WellFormedTrace;
    var steps := StepsOf(trace, rows, at);
    if ShowsBoundaries(rows, steps) {
      forall i | 0 <= i < |rows|
        ensures StepAt(rows, i) == steps[i]
      {
        CountedStep(trace, layers, rows, at, i);
      }
    } else if forall i :: 0 <= i < |rows| ==> StepAt(rows, i) == steps[i] {
      forall i | 0 < i < |rows| && steps[i] != steps[i - 1]
        ensures steps[i] == steps[i - 1] + 1 && rows[i].layer < rows[i - 1].layer
      {
        NextStep(trace, layers, rows, at, i);
        assert StepAt(rows, i) == StepAt(rows, i - 1) + if rows[i].layer < rows[i - 1].layer then 1 else 0;
      }
    }
  }

  // ----- All ranks together

  /** `ats[r]` are the positions that rank `r` logged. */
  ghost predicate RankParts(trace: seq<Step>, logs: seq<RankLog>, ats: seq<seq<nat>>) {
    && |ats| == |logs|
    && (forall r :: 0 <= r < |logs| ==>
         PartOfTrace(trace, logs[r].rows, ats[r]) && ShowsBoundaries(logs[r].rows, StepsOf(trace, logs[r].rows, ats[r])))
  }

  ghost predicate Picked(ats: seq<seq<nat>>, pos: nat) {
    exists r :: 0 <= r < |ats| && pos in ats[r]
  }

  /** Every row of the trace is in some rank's log. */
  ghost predicate AllPicked(trace: seq<Step>, ats: seq<seq<nat>>) {
    forall pos: nat :: pos < |FlatTrace(trace, |trace|)| ==> Picked(ats, pos)
  }

  ghost function AllSteps(trace: seq<Step>, logs: seq<RankLog>, ats: seq<seq<nat>>): (steps: seq<seq<nat>>)
    requires RankParts(trace, logs, ats)
    ensures |steps| == |logs| && forall r :: 0 <= r < |logs| ==> steps[r] == StepsOf(trace, logs[r].rows, ats[r])
  {
    seq(|logs|, r requires 0 <= r < |logs| => StepsOf(trace, logs[r].rows, ats[r]))
  }

  lemma PartIsPartialLog(trace: seq<Step>, layers: nat, rows: seq<LogRow>, at: seq<nat>)
    requires WellFormedTrace(trace, layers) && PartOfTrace(trace, rows, at) && ShowsBoundaries(rows, StepsOf(trace, rows, at))
    ensures PartialLog(trace, rows, StepsOf(trace, rows, at))
  {
    hide WellFormedTrace, FlatTrace, StepOf, Occurs;
    var steps := StepsOf(trace, rows, at);
    forall i | 0 <= i < |rows|
      ensures Occurs(trace, Key(steps[i], rows[i].layer, rows[i].request, rows[i].row), rows[i])
    {
      FlatRowOccurs(trace, layers, at[i]);
    }
    forall i | 0 < i < |rows|
      ensures if rows[i].layer < rows[i - 1].layer then steps[i] == steps[i - 1] + 1 else steps[i] == steps[i - 1]
    {
      NextStep(trace, layers, rows, at, i);
    }
  }

  lemma PartsArePartialLogs(trace: seq<Step>, layers: nat, logs: seq<RankLog>, ats: seq<seq<nat>>)
    requires WellFormedTrace(trace, layers) && RankParts(trace, logs, ats)
    ensures PartialLogs(trace, logs, AllSteps(trace, logs, ats))
  {
    hide WellFormedTrace, PartOfTrace, ShowsBoundaries, PartialLog;
    forall r | 0 <= r < |logs|
      ensures PartialLog(trace, logs[r].rows, AllSteps(trace, logs, ats)[r])
    {
      PartIsPartialLog(trace, layers, logs[r].rows, ats[r]);
    }
  }

  lemma {:induction false} StepPosition(step: Step, upTo: nat, l: nat, e: LogRow) returns (i: nat)
    requires l < upTo <= |step| && e in step[l]
    ensures i < |FlatStep(step, upTo)| && FlatStep(step, upTo)[i] == e
  {
    if l == upTo - 1 {
      var k :| 0 <= k < |step[l]| && step[l][k] == e;
      i := |FlatStep(step, upTo - 1)| + k;
    } else {
      i := StepPosition(step, upTo - 1, l, e);
    }
  }

  lemma {:induction false} TracePosition(trace: seq<Step>, upTo: nat, s: nat, i: nat)
    requires s < upTo <= |trace| && i < |FlatStep(trace[s], |trace[s]|)|
    ensures var pos := |FlatTrace(trace, s)| + i;
            && pos < |FlatTrace(trace, upTo)| && StepOf(trace, upTo, pos) == s
            && FlatTrace(trace, upTo)[pos] == FlatStep(trace[s], |trace[s]|)[i]
  {
    hide FlatStep;
    if s < upTo - 1 {
      TracePosition(trace, upTo - 1, s, i);
    }
  }

  lemma RowIsLogged(trace: seq<Step>, layers: nat, logs: seq<RankLog>, ats: seq<seq<nat>>, s: nat, l: nat, e: LogRow)
    requires WellFormedTrace(trace, layers) && RankParts(trace, logs, ats) && AllPicked(trace, ats)
    requires s < |trace| && l < |trace[s]| && e in trace[s][l]
    ensures Logged(logs, AllSteps(trace, logs, ats), |logs|, Key(s, l, e.request, e.row))
  {
    hide FlatTrace, FlatStep, StepOf, ShowsBoundaries;
    assert WellFormedStep(trace[s], layers) && WellFormedLayer(trace[s], l);
    var i := StepPosition(trace[s], |trace[s]|, l, e);
    TracePosition(trace, |trace|, s, i);
    var pos := |FlatTrace(trace, s)| + i;
    assert Picked(ats, pos);
    var r :| 0 <= r < |ats| && pos in ats[r];
    var k :| 0 <= k < |ats[r]| && ats[r][k] == pos;
    assert PartOfTrace(trace, logs[r].rows, ats[r]) && logs[r].rows[k] == e;
  }
}
