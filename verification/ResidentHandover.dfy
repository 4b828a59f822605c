/**
  Runs judged by their events alone.

  A request is warm from the decode step that leaves its latents in its scratch blocks until it
  finishes or goes cold.  A run in which warm blocks are neither given to another request nor
  written by anything else is correct from startup on, however blocks are reused afterwards and
  whatever is evicted on the way.
 */
module ResidentHandover {
  import opened Options
  import opened ResidentRegistry
  import opened ResidentMemory
  import opened ResidentSystem

  /** The scratch blocks of the warm requests. */
  type Warm = map<string, Signature>

  ghost function WarmBatch(c: Config, warm: Warm, batch: seq<Decode>, upTo: nat): Warm
    requires EligibleBatch(c, batch) && upTo <= |batch|
  {
    if upTo == 0 then warm
    else WarmBatch(c, warm, batch, upTo - 1)[batch[upTo - 1].id := ScratchTable(c, batch[upTo - 1])]
  }

  ghost function WarmAfter(c: Config, warm: Warm, e: Event): Warm
    requires e.DecodeBatch? ==> EligibleBatch(c, e.batch)
  {
    match e
    case Finish(ids) => map q | q in warm && q !in ids :: warm[q]
    case GoCold(ids) => map q | q in warm && q !in ids :: warm[q]
    case Overwrite(_) => warm
    case DecodeBatch(batch) => WarmBatch(c, warm, batch, |batch|)
  }

  /**
    What an event must respect: other writes stay off warm blocks, and a batch of different requests
    that fits the rows puts its scratch on blocks that no request outside the batch keeps warm.
   */
  ghost predicate Orderly(c: Config, maxStates: nat, warm: Warm, e: Event)
    requires ValidConfig(c)
  {
    match e
    case Finish(_) => true
    case GoCold(_) => true
    case Overwrite(cells) => forall a, q :: a in cells && q in warm ==> a / c.blockSize !in warm[q]
    case DecodeBatch(batch) =>
      && EligibleBatch(c, batch) && SeparateRequests(batch) && |batch| <= maxStates
      && (forall i, q :: 0 <= i < |batch| && q in warm && Outside(batch, q) ==>
            Apart(ScratchTable(c, batch[i]), warm[q]))
  }

  ghost predicate Outside(batch: seq<Decode>, q: string) {
    forall i :: 0 <= i < |batch| ==> batch[i].id != q
  }

  ghost predicate Apart(a: Signature, b: Signature) {
    forall x :: x in a ==> x !in b
  }

  ghost predicate OrderlyRun(c: Config, maxStates: nat, warm: Warm, events: seq<Event>)
    requires ValidConfig(c)
    decreases |events|
  {
    events != [] ==>
      Orderly(c, maxStates, warm, events[0]) && OrderlyRun(c, maxStates, WarmAfter(c, warm, events[0]), events[1..])
  }

  // ----- What an orderly run keeps

  ghost predicate Current(s: System, r: nat)
    requires Shaped(s) && r < |s.rows|
  {
    s.rows[r].generation == s.registry.generation[r] && s.registry.owner[r].Some?
  }

  /** A row of the current generation belongs to a warm request whose scratch nothing has disturbed. */
  ghost predicate CurrentIsWarm(s: System, warm: Warm)
    requires Shaped(s)
  {
    forall r :: 0 <= r < |s.rows| && Current(s, r) ==> WarmRow(s, warm, r)
  }

  ghost predicate WarmRow(s: System, warm: Warm, r: nat)
    requires Shaped(s) && r < |s.rows| && s.registry.owner[r].Some?
  {
    var q := s.registry.owner[r].value;
    q in warm && s.registry.signature[r] == Some(warm[q]) && q !in s.dirty
  }

  /** A row that is current after the registry moved on was current before, for the same owner and blocks. */
  lemma CurrentBefore(c: Config, s: System, s': System, r: nat)
    requires Inv(c, s) && Shaped(s') && Advances(s.registry, s'.registry) && s'.rows == s.rows
    requires r < |s.rows| && Current(s', r)
    ensures Current(s, r) && s.registry.generation[r] == s'.registry.generation[r]
    ensures s.registry.owner[r] == s'.registry.owner[r] && s.registry.signature[r] == s'.registry.signature[r]
  {
    hide Trusted, Valid;
    assert RowTrusted(c, s, r);
  }

  lemma OwnerIsBound(s: System, r: nat)
    requires Shaped(s) && r < |s.rows| && s.registry.owner[r].Some?
    ensures s.registry.owner[r].value in s.registry.rowOf && s.registry.rowOf[s.registry.owner[r].value] == r
  {
  }

  lemma FinishKeepsWarm(c: Config, s: System, warm: Warm, ids: seq<string>)
    requires Inv(c, s) && CurrentIsWarm(s, warm)
    ensures CurrentIsWarm(Next(c, s, Finish(ids)).value, WarmAfter(c, warm, Finish(ids)))
  {
    hide Release, RowTrusted, Valid, Advances;
    var s' := Next(c, s, Finish(ids)).value;
    ReleaseAdvances(s.registry, ids);
    ShapedAfter(s, s');
    forall r | 0 <= r < |s'.rows| && Current(s', r)
      ensures WarmRow(s', WarmAfter(c, warm, Finish(ids)), r)
    {
      CurrentBefore(c, s, s', r);
      OwnerIsBound(s', r);
      assert WarmRow(s, warm, r);
    }
  }

  lemma ShapedAfter(s: System, s': System)
    requires Shaped(s) && Advances(s.registry, s'.registry) && s'.rows == s.rows
    ensures Shaped(s')
  {
  }

  lemma GoColdKeepsWarm(c: Config, s: System, warm: Warm, ids: seq<string>)
    requires Inv(c, s) && CurrentIsWarm(s, warm)
    ensures CurrentIsWarm(Next(c, s, GoCold(ids)).value, WarmAfter(c, warm, GoCold(ids)))
  {
    hide Invalidate, RowTrusted, Valid, Advances;
    var s' := Next(c, s, GoCold(ids)).value;
    InvalidateAdvances(s.registry, ids);
    ShapedAfter(s, s');
    forall r | 0 <= r < |s'.rows| && Current(s', r)
      ensures WarmRow(s', WarmAfter(c, warm, GoCold(ids)), r)
    {
      CurrentBefore(c, s, s', r);
      OwnerIsBound(s', r);
      OwnerIsBound(s, r);
      assert WarmRow(s, warm, r);
    }
  }

  lemma OffBlocks(c: Config, sig: Signature, addresses: set<nat>)
    requires ValidConfig(c) && forall a :: a in addresses ==> a / c.blockSize !in sig
    ensures !Meets(c, Some(sig), addresses)
  {
    hide SlotAddress;
    if Backs(c, sig) {
      forall slot: nat | slot < c.capacity
        ensures SlotAddress(c, sig, slot) !in addresses
      {
        BlockOfSlot(c, sig, slot);
      }
    }
  }

  lemma OverwriteKeepsWarm(c: Config, s: System, warm: Warm, cells: Memory)
    requires Inv(c, s) && CurrentIsWarm(s, warm) && Orderly(c, |s.rows|, warm, Overwrite(cells))
    ensures CurrentIsWarm(Next(c, s, Overwrite(cells)).value, warm)
  {
    hide RowTrusted, Meets;
    var s' := Next(c, s, Overwrite(cells)).value;
    forall r | 0 <= r < |s'.rows| && Current(s', r)
      ensures WarmRow(s', warm, r)
    {
      assert Current(s, r) && WarmRow(s, warm, r);
      OwnerIsBound(s, r);
      OffBlocks(c, warm[s.registry.owner[r].value], cells.Keys);
    }
  }

  // ----- A batch

  lemma OrderlyIsAdmissible(c: Config, s: System, warm: Warm, e: Event)
    requires Inv(c, s) && CurrentIsWarm(s, warm) && Orderly(c, |s.rows|, warm, e)
    ensures Admissible(c, s, e)
  {
    hide RowTrusted, Eligible, ScratchTable, SeparateRequests, Apart;
    if e.DecodeBatch? {
      forall i | 0 <= i < |e.batch| && Resumes(c, s, e.batch[i])
        ensures e.batch[i].id !in s.dirty
      {
        var row := s.registry.rowOf[e.batch[i].id];
        assert Current(s, row) && WarmRow(s, warm, row);
      }
    }
  }

  lemma {:induction false} WarmBatchHolds(c: Config, warm: Warm, batch: seq<Decode>, upTo: nat)
    requires EligibleBatch(c, batch) && upTo <= |batch|
    requires forall i, j :: 0 <= i < j < |batch| ==> batch[i].id != batch[j].id
    ensures forall i :: 0 <= i < upTo ==> var after := WarmBatch(c, warm, batch, upTo);
              batch[i].id in after && after[batch[i].id] == ScratchTable(c, batch[i])
    ensures forall q :: q in warm && Outside(batch, q) ==>
              q in WarmBatch(c, warm, batch, upTo) && WarmBatch(c, warm, batch, upTo)[q] == warm[q]
  {
    hide Eligible, ScratchTable;
    if upTo > 0 {
      WarmBatchHolds(c, warm, batch, upTo - 1);
    }
  }

  ghost predicate DisturbedBy(c: Config, s: System, batch: seq<Decode>, upTo: nat, q: string)
    requires Valid(s.registry) && EligibleBatch(c, batch) && upTo <= |batch|
  {
    exists i :: 0 <= i < upTo && q in Disturbed(c, s.registry, Scratch(c, ScratchTable(c, batch[i])))
  }

  /** The steps of a batch change the rows of the batch only, and disturb only requests whose blocks they load into. */
  lemma {:induction false} BatchTouches(c: Config, s: System, batch: seq<Decode>, bindings: seq<Binding>, upTo: nat, r: nat, q: string)
    requires Valid(s.registry) && EligibleBatch(c, batch) && upTo <= |batch| == |bindings|
    requires forall i :: 0 <= i < |bindings| ==> bindings[i].row < |s.rows| && bindings[i].row != r
    requires r < |s.rows| && BatchSteps(c, s, batch, bindings, upTo).Some?
    ensures var s' := BatchSteps(c, s, batch, bindings, upTo).value;
            && s'.registry == s.registry && s'.rows[r] == s.rows[r]
            && (q in s'.dirty ==> q in s.dirty || DisturbedBy(c, s, batch, upTo, q))
  {
    hide Eligible, ScratchTable, Disturbed, Load, RequestPlan, Scratch;
    if upTo > 0 {
      BatchTouches(c, s, batch, bindings, upTo - 1, r, q);
    }
  }

  lemma ApartIsUndisturbed(c: Config, r: Registry, q: string, table: Signature)
    requires Valid(r) && Backs(c, table) && q in r.rowOf
    requires r.signature[r.rowOf[q]].Some? && Apart(table, r.signature[r.rowOf[q]].value)
    ensures q !in Disturbed(c, r, Scratch(c, table))
  {
    hide Backs, Scratch;
    var sig := r.signature[r.rowOf[q]].value;
    if Backs(c, sig) {
      SeparateTables(c, table, sig);
    }
  }

  /** Binding a batch leaves the other current rows warm. */
  lemma BindKeepsBystander(c: Config, s: System, warm: Warm, batch: seq<Decode>, bound: Bound, r: nat)
    requires Inv(c, s) && CurrentIsWarm(s, warm) && EligibleBatch(c, batch) && |bound.bindings| == |batch|
    requires Shaped(AfterBind(s, bound, batch)) && Advances(s.registry, bound.registry)
    requires forall i :: 0 <= i < |batch| ==> HoldsRow(bound.registry, batch[i].id, ScratchTable(c, batch[i]), bound.bindings[i])
    requires r < |s.rows| && forall i :: 0 <= i < |batch| ==> bound.bindings[i].row != r
    ensures var s1 := AfterBind(s, bound, batch);
            Current(s1, r) ==> WarmRow(s1, warm, r) && Outside(batch, s1.registry.owner[r].value)
  {
    hide RowTrusted, Eligible, ScratchTable, Advances, Valid;
    var s1 := AfterBind(s, bound, batch);
    if Current(s1, r) {
      CurrentBefore(c, s, s1, r);
      assert WarmRow(s, warm, r);
      OwnerIsBound(s1, r);
      forall i | 0 <= i < |batch|
        ensures batch[i].id != s1.registry.owner[r].value
      {
        assert HoldsRow(bound.registry, batch[i].id, ScratchTable(c, batch[i]), bound.bindings[i]);
      }
    }
  }

  /** The steps of the batch leave it warm too. */
  lemma StepsKeepBystander(c: Config, s: System, warm: Warm, batch: seq<Decode>, bindings: seq<Binding>, r: nat)
    requires Shaped(s) && EligibleBatch(c, batch) && SeparateRequests(batch) && |batch| == |bindings| && r < |s.rows|
    requires forall i :: 0 <= i < |bindings| ==> bindings[i].row < |s.rows| && bindings[i].row != r
    requires forall i, q :: 0 <= i < |batch| && q in warm && Outside(batch, q) ==> Apart(ScratchTable(c, batch[i]), warm[q])
    requires Current(s, r) ==> WarmRow(s, warm, r) && Outside(batch, s.registry.owner[r].value)
    requires BatchSteps(c, s, batch, bindings, |batch|).Some?
    ensures var s' := BatchSteps(c, s, batch, bindings, |batch|).value;
            Shaped(s') && (Current(s', r) ==> WarmRow(s', WarmBatch(c, warm, batch, |batch|), r))
  {
    hide Eligible, ScratchTable, BatchSteps, Valid, Disturbed, Scratch, Apart, WarmBatch;
    var s' := BatchSteps(c, s, batch, bindings, |batch|).value;
    BatchTouches(c, s, batch, bindings, |batch|, r, "");
    if Current(s', r) {
      var q := s.registry.owner[r].value;
      BatchTouches(c, s, batch, bindings, |batch|, r, q);
      OwnerIsBound(s, r);
      forall i | 0 <= i < |batch|
        ensures q !in Disturbed(c, s.registry, Scratch(c, ScratchTable(c, batch[i])))
      {
        ApartIsUndisturbed(c, s.registry, q, ScratchTable(c, batch[i]));
      }
      WarmBatchHolds(c, warm, batch, |batch|);
    }
  }

  /** A request of the batch ends the batch warm. */
  lemma MemberIsWarm(c: Config, s: System, warm: Warm, batch: seq<Decode>, bindings: seq<Binding>, k: nat)
    requires BatchReady(c, s, batch, bindings) && EligibleBatch(c, batch) && k < |batch|
    ensures bindings[k].row < |s.rows| && s.registry.owner[bindings[k].row].Some?
    ensures WarmRow(s, WarmBatch(c, warm, batch, |batch|), bindings[k].row)
  {
    hide RowTrusted, Eligible, ScratchTable, WarmBatch;
    assert ReadyFor(c, s, batch[k], bindings[k]);
    WarmBatchHolds(c, warm, batch, |batch|);
  }

  lemma DecodeKeepsWarm(c: Config, s: System, warm: Warm, batch: seq<Decode>)
    requires Inv(c, s) && CurrentIsWarm(s, warm) && Orderly(c, |s.rows|, warm, DecodeBatch(batch))
    ensures Next(c, s, DecodeBatch(batch)).Some?
    ensures var s' := Next(c, s, DecodeBatch(batch)).value;
            Shaped(s') && CurrentIsWarm(s', WarmAfter(c, warm, DecodeBatch(batch))) && |s'.rows| == |s.rows|
  {
    hide BatchSteps, RowTrusted, Bind, Eligible, ScratchTable, WarmRow, WarmBatch, Valid, Advances, HoldsRow, Apart,
         SeparateRequests, Ids, ScratchTables;
    OrderlyIsAdmissible(c, s, warm, DecodeBatch(batch));
    BindReadies(c, s, batch);
    var bound := Bind(s.registry, Ids(batch), ScratchTables(c, batch)).bound;
    var s1 := AfterBind(s, bound, batch);
    BatchStepsKeepInv(c, s1, batch, bound.bindings, |batch|);
    var s' := BatchSteps(c, s1, batch, bound.bindings, |batch|).value;
    BoundRegistry(c, s, batch);
    forall r | 0 <= r < |s'.rows| && Current(s', r)
      ensures WarmRow(s', WarmBatch(c, warm, batch, |batch|), r)
    {
      if k :| 0 <= k < |batch| && bound.bindings[k].row == r {
        MemberIsWarm(c, s', warm, batch, bound.bindings, k);
      } else {
        BindKeepsBystander(c, s, warm, batch, bound, r);
        StepsKeepBystander(c, s1, warm, batch, bound.bindings, r);
      }
    }
  }

  lemma BoundRegistry(c: Config, s: System, batch: seq<Decode>)
    requires Inv(c, s) && AdmissibleBatch(c, s, batch)
    ensures var o := Bind(s.registry, Ids(batch), ScratchTables(c, batch));
            && o.BoundAll? && |o.bound.bindings| == |batch| && Advances(s.registry, o.bound.registry)
            && (forall i :: 0 <= i < |batch| ==>
                 HoldsRow(o.bound.registry, batch[i].id, ScratchTable(c, batch[i]), o.bound.bindings[i]))
  {
    hide Bind, RowTrusted, ScratchTable, Eligible, HoldsRow, Advances;
    var ids, sigs := Ids(batch), ScratchTables(c, batch);
    BindKeepsTrust(s.registry, ids, sigs);
    var bound := Bind(s.registry, ids, sigs).bound;
    forall i | 0 <= i < |batch|
      ensures HoldsRow(bound.registry, batch[i].id, ScratchTable(c, batch[i]), bound.bindings[i])
    {
      assert HoldsRow(bound.registry, ids[i], sigs[i], bound.bindings[i]);
    }
  }

  // ----- Runs

  lemma OrderlyEvent(c: Config, s: System, warm: Warm, e: Event)
    requires Inv(c, s) && CurrentIsWarm(s, warm) && Orderly(c, |s.rows|, warm, e)
    ensures Correct(c, s, e)
    ensures var s' := Next(c, s, e).value;
            Inv(c, s') && CurrentIsWarm(s', WarmAfter(c, warm, e)) && |s'.rows| == |s.rows|
  {
    hide RowTrusted, CurrentIsWarm, Orderly, Admissible, BatchSteps, Valid, ReadsOwnLatents, SameCell, WarmAfter, ScratchClear;
    OrderlyIsAdmissible(c, s, warm, e);
    EventCorrect(c, s, e);
    match e
    case Finish(ids) => FinishKeepsWarm(c, s, warm, ids);
    case GoCold(ids) => GoColdKeepsWarm(c, s, warm, ids);
    case Overwrite(cells) => OverwriteStaysWarm(c, s, warm, cells);
    case DecodeBatch(batch) => DecodeKeepsWarm(c, s, warm, batch);
  }

  lemma OverwriteStaysWarm(c: Config, s: System, warm: Warm, cells: Memory)
    requires Inv(c, s) && CurrentIsWarm(s, warm) && Orderly(c, |s.rows|, warm, Overwrite(cells))
    ensures CurrentIsWarm(Next(c, s, Overwrite(cells)).value, WarmAfter(c, warm, Overwrite(cells)))
  {
    hide RowTrusted, CurrentIsWarm, Orderly;
    OverwriteKeepsWarm(c, s, warm, cells);
  }

  lemma {:induction false} OrderlyRunsAreCorrect(c: Config, s: System, warm: Warm, events: seq<Event>)
    requires Inv(c, s) && CurrentIsWarm(s, warm) && OrderlyRun(c, |s.rows|, warm, events)
    ensures CorrectRun(c, s, events)
    decreases |events|
  {
    hide RowTrusted, CurrentIsWarm, Orderly, Next, ReadsOwnLatents, SameCell, WarmAfter;
    if events != [] {
      OrderlyEvent(c, s, warm, events[0]);
      OrderlyRunsAreCorrect(c, Next(c, s, events[0]).value, WarmAfter(c, warm, events[0]), events[1..]);
    }
  }

  /**
    From startup, whatever rows and memory hold: every run is correct in which blocks change hands,
    or are overwritten by something else, only after their last user finished or went cold.
   */
  lemma HandoverIsEnough(c: Config, rows: seq<Row>, memory: Memory, events: seq<Event>)
    requires ValidConfig(c) && forall r :: 0 <= r < |rows| ==> rows[r].generation == -1
    requires OrderlyRun(c, |rows|, map[], events)
    ensures CorrectRun(c, System(Fresh(|rows|), rows, memory, {}), events)
  {
    hide RowTrusted, OrderlyRun, CorrectRun;
    StartupState(c, |rows|, rows, memory);
    OrderlyRunsAreCorrect(c, System(Fresh(|rows|), rows, memory, {}), map[], events);
  }
}
