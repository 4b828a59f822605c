/**
  What a request reads when it resumes: exactly when the scratch it left behind may be reused, and
  why going cold before the scratch is overwritten is needed and enough.
 */
module ResidentStaleness {
  import opened Options
  import opened SortedSets
  import opened ResidentPlanner
  import opened ResidentRequest
  import opened ResidentRegistry
  import opened ResidentMemory
  import opened ResidentSystem

  /** The slot holds the latent of the token. */
  ghost predicate Kept(c: Config, memory: Memory, d: Decode, slot: nat, t: nat)
    requires Eligible(c, d) && slot < c.capacity
  {
    var a := SlotAddress(c, ScratchTable(c, d), slot);
    a in memory && memory[a] == Latent(d.id, t)
  }

  /** Every selected token that is still mapped is where it is mapped to. */
  ghost predicate HitsKept(c: Config, memory: Memory, d: Decode, before: Residency)
    requires Eligible(c, d) && Dense(before) && |before| <= c.capacity
  {
    forall t :: t in Selected(d.source, d.boundaries) && t in before ==> Kept(c, memory, d, before[t], t)
  }

  /** After the load, a selected token is in its slot exactly if it was loaded now or was there before. */
  lemma LoadedOrKept(c: Config, memory: Memory, d: Decode, before: Residency, plan: Plan, t: nat)
    requires Eligible(c, d) && Dense(before) && |before| <= c.capacity
    requires StepOutcome(before, Selected(d.source, d.boundaries), plan) && |plan.resident| <= c.capacity
    requires t in Selected(d.source, d.boundaries)
    ensures t in plan.resident && plan.resident[t] < c.capacity
    ensures forall k :: 0 <= k < |plan.missSlots| ==> plan.missSlots[k] < c.capacity
    ensures Kept(c, Load(c, memory, d.id, ScratchTable(c, d), plan.misses, plan.missSlots), d, plan.resident[t], t)
            <==> (t in before ==> Kept(c, memory, d, before[t], t))
  {
    hide Load, SlotAddress, ScratchTable, SelectedUpTo, StepOutcome, Kept, NoDuplicates;
    OutcomePlanned(before, Selected(d.source, d.boundaries), plan);
    MissSlotsFit(c, before, Selected(d.source, d.boundaries), plan);
    SelectedInPlan(before, Selected(d.source, d.boundaries), plan, t);
    if t in before {
      UnwrittenSlot(c, memory, d, plan.misses, plan.missSlots, before[t], t);
    } else {
      var k :| 0 <= k < |plan.misses| && plan.misses[k] == t;
      WrittenSlot(c, memory, d, plan.misses, plan.missSlots, k);
    }
  }

  lemma SelectedInPlan(before: Residency, current: set<nat>, plan: Plan, t: nat)
    requires StepOutcome(before, current, plan) && t in current
    ensures t in plan.resident && |plan.misses| == |plan.missSlots|
    ensures t in before ==> plan.resident[t] == before[t] && before[t] !in plan.missSlots
    ensures t !in before ==> t in plan.misses
    ensures forall k :: 0 <= k < |plan.misses| && plan.misses[k] == t ==> plan.missSlots[k] == plan.resident[t]
  {
    hide Dense, NoDuplicates;
    assert t in Members(plan.misses) <==> t !in before;
  }

  lemma UnwrittenSlot(c: Config, memory: Memory, d: Decode, tokens: seq<nat>, slots: seq<nat>, slot: nat, t: nat)
    requires Eligible(c, d) && |tokens| == |slots| && slot < c.capacity && slot !in slots
    requires forall i :: 0 <= i < |slots| ==> slots[i] < c.capacity
    ensures Kept(c, Load(c, memory, d.id, ScratchTable(c, d), tokens, slots), d, slot, t) <==> Kept(c, memory, d, slot, t)
  {
    hide SlotAddress, Load, ScratchTable, Backs, Eligible;
    var table := ScratchTable(c, d);
    forall i | 0 <= i < |slots|
      ensures SlotAddress(c, table, slot) != SlotAddress(c, table, slots[i])
    {
      if SlotAddress(c, table, slot) == SlotAddress(c, table, slots[i]) {
        SlotAddressInjective(c, table, slot, slots[i]);
      }
    }
    LoadKeeps(c, memory, d.id, table, tokens, slots, SlotAddress(c, table, slot));
  }

  lemma WrittenSlot(c: Config, memory: Memory, d: Decode, tokens: seq<nat>, slots: seq<nat>, k: nat)
    requires Eligible(c, d) && |tokens| == |slots| && k < |slots| && NoDuplicates(slots)
    requires forall i :: 0 <= i < |slots| ==> slots[i] < c.capacity
    ensures Kept(c, Load(c, memory, d.id, ScratchTable(c, d), tokens, slots), d, slots[k], tokens[k])
  {
    hide SlotAddress, Load, ScratchTable, Backs, Eligible, NoDuplicates;
    LoadWrites(c, memory, d.id, ScratchTable(c, d), tokens, slots, k);
  }

  /**
    One request, whatever its scratch holds: it reads its own latents exactly if every selected
    token its trusted row still maps is where the row says.
   */
  lemma RequestReadsExactly(c: Config, s: System, d: Decode, b: Binding)
    requires Valid(s.registry) && Eligible(c, d) && b.row < |s.rows|
    requires Dense(TrustedResidency(s, b)) && |TrustedResidency(s, b)| <= c.capacity
    ensures RequestStep(c, s, d, b).Some?
    ensures ReadsOwnLatents(c, RequestStep(c, s, d, b).value, d, b) <==> HitsKept(c, s.memory, d, TrustedResidency(s, b))
  {
    hide StepOutcome, Load, RequestPlan, TrustedResidency, Kept, SelectedUpTo, Scratch, Disturbed, ScratchTable;
    PlannedFromDense(c, s, d, b);
    var before, plan := TrustedResidency(s, b), RequestPlan(c, s, d, b);
    OutcomePlanned(before, Selected(d.source, d.boundaries), plan);
    var s' := RequestStep(c, s, d, b).value;
    forall t | t in Selected(d.source, d.boundaries)
      ensures t in plan.resident && plan.resident[t] < c.capacity
      ensures Kept(c, s'.memory, d, plan.resident[t], t) <==> (t in before ==> Kept(c, s.memory, d, before[t], t))
    {
      LoadedOrKept(c, s.memory, d, before, plan, t);
    }
    EntriesAreSelection(c, s', d, b);
  }

  /** Reading one's own latents is a matter of the selected tokens. */
  lemma EntriesAreSelection(c: Config, s: System, d: Decode, b: Binding)
    requires Eligible(c, d) && b.row < |s.rows|
    requires forall t :: t in Selected(d.source, d.boundaries) ==>
               t in s.rows[b.row].resident && s.rows[b.row].resident[t] < c.capacity
    ensures ReadsOwnLatents(c, s, d, b)
            <==> forall t :: t in Selected(d.source, d.boundaries) ==> Kept(c, s.memory, d, s.rows[b.row].resident[t], t)
  {
    hide SlotAddress, SelectedUpTo, ScratchTable, Backs;
    SelectedMembers(d.source, d.boundaries, |d.source|);
    forall p | 0 <= p < |d.source| && Offloaded(d.source, d.boundaries, p)
      ensures d.source[p] as nat in Selected(d.source, d.boundaries)
    {
    }
    if ReadsOwnLatents(c, s, d, b) {
      forall t | t in Selected(d.source, d.boundaries)
        ensures Kept(c, s.memory, d, s.rows[b.row].resident[t], t)
      {
        var p :| 0 <= p < |d.source| && Offloaded(d.source, d.boundaries, p) && d.source[p] == t;
        assert Remapped(d.source, d.boundaries, s.rows[b.row].resident)[p] == s.rows[b.row].resident[t];
      }
    }
  }

  // ----- Resuming

  lemma BindResumed(c: Config, s: System, d: Decode)
    requires Shaped(s) && Eligible(c, d) && Resumes(c, s, d)
    ensures var row := s.registry.rowOf[d.id];
            Bind(s.registry, [d.id], [ScratchTable(c, d)])
            == BoundAll(Bound(Touch(s.registry, d.id, ScratchTable(c, d)), [Binding(row, s.registry.generation[row])]))
  {
    hide ScratchTable, Eligible;
    var ids, sigs := [d.id], [ScratchTable(c, d)];
    var protected := set q | q in ids;
    assert BindUpTo(s.registry, ids, sigs, protected, 0) == Some(Bound(s.registry, []));
    assert BindOne(s.registry, d.id, sigs[0], protected) == Some(Touch(s.registry, d.id, sigs[0]));
    var row := s.registry.rowOf[d.id];
    assert [] + [Binding(row, s.registry.generation[row])] == [Binding(row, s.registry.generation[row])];
  }

  /** Decoding a single request that resumes is one step from its row. */
  lemma ResumedStep(c: Config, s: System, d: Decode)
    requires Shaped(s) && Eligible(c, d) && Resumes(c, s, d)
    ensures EligibleBatch(c, [d])
    ensures var row := s.registry.rowOf[d.id];
            var b := Binding(row, s.registry.generation[row]);
            var s1 := s.(registry := Touch(s.registry, d.id, ScratchTable(c, d)), dirty := s.dirty - {d.id});
            && Next(c, s, DecodeBatch([d])) == RequestStep(c, s1, d, b) && BindingsFor(c, s, [d]) == [b]
            && TrustedResidency(s1, b) == s.rows[row].resident
  {
    hide ScratchTable, Eligible, RequestStep, Touch, Bind;
    BindResumed(c, s, d);
    var row := s.registry.rowOf[d.id];
    var b := Binding(row, s.registry.generation[row]);
    var bound := Bound(Touch(s.registry, d.id, ScratchTable(c, d)), [b]);
    assert Ids([d]) == [d.id] && ScratchTables(c, [d]) == [ScratchTable(c, d)];
    assert (set i | 0 <= i < |[d]| :: [d][i].id) == {d.id} by {
      assert [d][0].id == d.id;
    }
    var s1 := AfterBind(s, bound, [d]);
    assert BatchSteps(c, s1, [d], [b], 0) == Some(s1);
    assert BatchSteps(c, s1, [d], [b], 1) == RequestStep(c, s1, d, b);
  }

  lemma CurrentRowDense(c: Config, s: System, d: Decode)
    requires Inv(c, s) && Eligible(c, d) && Resumes(c, s, d)
    ensures var resident := s.rows[s.registry.rowOf[d.id]].resident; Dense(resident) && |resident| <= c.capacity
  {
    hide Dense, Backs, Holds, ScratchTable, Eligible;
    assert RowTrusted(c, s, s.registry.rowOf[d.id]);
  }

  /**
    Resuming, exactly: a request that comes back on the same blocks in the same generation reads its
    own latents if and only if every selected token its row still maps is in memory where it was.
   */
  lemma ResumedDecodeReads(c: Config, s: System, d: Decode)
    requires Inv(c, s) && Eligible(c, d) && Resumes(c, s, d)
    ensures EligibleBatch(c, [d]) && Next(c, s, DecodeBatch([d])).Some? && |BindingsFor(c, s, [d])| == 1
    ensures var resident := s.rows[s.registry.rowOf[d.id]].resident;
            && Dense(resident) && |resident| <= c.capacity
            && (ReadsOwnLatents(c, Next(c, s, DecodeBatch([d])).value, d, BindingsFor(c, s, [d])[0])
                <==> HitsKept(c, s.memory, d, resident))
  {
    hide Dense, RowTrusted, ScratchTable, Eligible, RequestStep, Next, ReadsOwnLatents, HitsKept, BindingsFor, TrustedResidency;
    CurrentRowDense(c, s, d);
    ResumedStep(c, s, d);
    var row := s.registry.rowOf[d.id];
    var s1 := s.(registry := Touch(s.registry, d.id, ScratchTable(c, d)), dirty := s.dirty - {d.id});
    RequestReadsExactly(c, s1, d, Binding(row, s.registry.generation[row]));
  }

  // ----- Why a request has to go cold before its scratch is overwritten

  /** After a batch every request of it can resume, with all it selected in its row. */
  lemma DecodedResumes(c: Config, s: System, batch: seq<Decode>, k: nat)
    requires Inv(c, s) && AdmissibleBatch(c, s, batch) && k < |batch|
    ensures Next(c, s, DecodeBatch(batch)).Some?
    ensures var s' := Next(c, s, DecodeBatch(batch)).value;
            && Inv(c, s') && Resumes(c, s', batch[k])
            && Selected(batch[k].source, batch[k].boundaries) <= s'.rows[s'.registry.rowOf[batch[k].id]].resident.Keys
  {
    hide BatchSteps, RowTrusted, Bind, SeparateRequests, Eligible, ScratchTables, ScratchTable, Ids, Selected;
    BindReadies(c, s, batch);
    var bound := Bind(s.registry, Ids(batch), ScratchTables(c, batch)).bound;
    var s1 := AfterBind(s, bound, batch);
    BatchStepsKeepInv(c, s1, batch, bound.bindings, |batch|);
    var s' := BatchSteps(c, s1, batch, bound.bindings, |batch|).value;
    assert ReadyFor(c, s', batch[k], bound.bindings[k]) && Served(c, s', batch[k], bound.bindings[k]);
  }

  /** Foreign data in every cell of the scratch. */
  ghost function Wipe(c: Config, d: Decode): Memory
    requires Eligible(c, d)
  {
    map a | a in Scratch(c, ScratchTable(c, d)) :: Foreign
  }

  ghost function Wiped(c: Config, s: System, d: Decode): System
    requires Shaped(s) && Eligible(c, d)
  {
    Next(c, s, Overwrite(Wipe(c, d))).value
  }

  lemma WipedState(c: Config, s: System, d: Decode)
    requires Inv(c, s) && Eligible(c, d) && Resumes(c, s, d)
    ensures var s' := Wiped(c, s, d);
            && Inv(c, s') && Resumes(c, s', d)
            && s'.registry == s.registry && s'.rows == s.rows && s'.memory == s.memory + Wipe(c, d)
  {
    hide RowTrusted, ScratchTable, Eligible, Disturbed, Wipe;
    OverwriteKeepsInv(c, s, Wipe(c, d));
  }

  lemma WipedLosesHits(c: Config, s: System, d: Decode)
    requires Inv(c, s) && Eligible(c, d) && Resumes(c, s, d) && Selected(d.source, d.boundaries) != {}
    requires Selected(d.source, d.boundaries) <= s.rows[s.registry.rowOf[d.id]].resident.Keys
    ensures EligibleBatch(c, [d]) && !Correct(c, Wiped(c, s, d), DecodeBatch([d]))
  {
    hide RowTrusted, ScratchTable, SelectedUpTo, Correct, Next, Wiped, ReadsOwnLatents, Kept, Wipe, BindingsFor;
    WipedState(c, s, d);
    ResumedDecodeReads(c, Wiped(c, s, d), d);
    var t :| t in Selected(d.source, d.boundaries);
    SlotWiped(c, s.memory, d, s.rows[s.registry.rowOf[d.id]].resident, t);
    MisreadIsIncorrect(c, Wiped(c, s, d), d);
  }

  lemma MisreadIsIncorrect(c: Config, s: System, d: Decode)
    requires Shaped(s) && Eligible(c, d) && EligibleBatch(c, [d]) && Next(c, s, DecodeBatch([d])).Some?
    requires |BindingsFor(c, s, [d])| == 1
    requires !ReadsOwnLatents(c, Next(c, s, DecodeBatch([d])).value, d, BindingsFor(c, s, [d])[0])
    ensures !Correct(c, s, DecodeBatch([d]))
  {
    hide Next, ReadsOwnLatents, BindingsFor, SameCell;
    assert [d][0] == d;
  }

  lemma SlotWiped(c: Config, memory: Memory, d: Decode, resident: Residency, t: nat)
    requires Eligible(c, d) && Dense(resident) && |resident| <= c.capacity && t in resident
    ensures !Kept(c, memory + Wipe(c, d), d, resident[t], t)
  {
    hide ScratchTable, Eligible, SlotAddress;
    assert SlotAddress(c, ScratchTable(c, d), resident[t]) in Scratch(c, ScratchTable(c, d));
  }

  lemma ColdDoesNotResume(c: Config, s: System, d: Decode)
    requires Inv(c, s) && Eligible(c, d) && d.id in s.registry.rowOf
    ensures var s' := Next(c, s, GoCold([d.id])).value;
            Inv(c, s') && !Resumes(c, s', d) && !Resumes(c, Wiped(c, s', d), d) && |s'.rows| == |s.rows|
  {
    hide ScratchTable, Eligible, Scratch, Disturbed, Invalidate, Backs, Trusted;
    GoColdKeepsInv(c, s, [d.id]);
    InvalidateAdvances(s.registry, [d.id]);
    assert d.id in [d.id];
    assert RowTrusted(c, s, s.registry.rowOf[d.id]);
  }

  /** The request decodes, its scratch is overwritten, and it decodes again, with or without going cold first. */
  ghost function Reused(c: Config, d: Decode, cold: bool): seq<Event>
    requires Eligible(c, d)
  {
    [DecodeBatch([d])] + (if cold then [GoCold([d.id])] else []) + [Overwrite(Wipe(c, d)), DecodeBatch([d])]
  }

  /**
    Going cold is needed and enough, for every request and every state it may decode in: with it the
    run is correct, without it the second decode reads something else.
   */
  lemma ColdBeforeOverwriteDecides(c: Config, s: System, d: Decode, cold: bool)
    requires Inv(c, s) && Eligible(c, d) && AdmissibleBatch(c, s, [d]) && Selected(d.source, d.boundaries) != {}
    ensures CorrectRun(c, s, Reused(c, d, cold)) <==> cold
  {
    hide RowTrusted, Selected, AdmissibleBatch, Next, Wipe, ReadsOwnLatents, SameCell, Resumes, CorrectRun;
    BatchCorrect(c, s, [d]);
    DecodedResumes(c, s, [d], 0);
    var s1 := Next(c, s, DecodeBatch([d])).value;
    var rest := [Overwrite(Wipe(c, d)), DecodeBatch([d])];
    if cold {
      assert Reused(c, d, true) == [DecodeBatch([d])] + ([GoCold([d.id])] + rest);
      RunStep(c, s, DecodeBatch([d]), [GoCold([d.id])] + rest);
      ColdThenWiped(c, s1, d);
      RunStep(c, s1, GoCold([d.id]), rest);
      RunOfTwo(c, Next(c, s1, GoCold([d.id])).value, rest[0], rest[1]);
    } else {
      assert Reused(c, d, false) == [DecodeBatch([d])] + rest;
      RunStep(c, s, DecodeBatch([d]), rest);
      WipeIsCorrect(c, s1, d);
      RunOfTwo(c, s1, rest[0], rest[1]);
      WipedLosesHits(c, s1, d);
    }
  }

  lemma WipeIsCorrect(c: Config, s: System, d: Decode)
    requires Inv(c, s) && Eligible(c, d)
    ensures Correct(c, s, Overwrite(Wipe(c, d)))
  {
    hide RowTrusted, Eligible, Wipe, Disturbed;
  }

  lemma ColdThenWiped(c: Config, s: System, d: Decode)
    requires Inv(c, s) && Eligible(c, d) && Resumes(c, s, d)
    ensures var s1 := Next(c, s, GoCold([d.id])).value;
            && Correct(c, s, GoCold([d.id])) && Correct(c, s1, Overwrite(Wipe(c, d)))
            && Correct(c, Wiped(c, s1, d), DecodeBatch([d]))
  {
    hide RowTrusted, ScratchTable, Eligible, Wipe, Scratch, Disturbed, Invalidate, ReadsOwnLatents;
    ColdDoesNotResume(c, s, d);
    var s1 := Next(c, s, GoCold([d.id])).value;
    OverwriteKeepsInv(c, s1, Wipe(c, d));
    BatchCorrect(c, Wiped(c, s1, d), [d]);
  }

  lemma RunStep(c: Config, s: System, e: Event, rest: seq<Event>)
    requires Correct(c, s, e)
    ensures CorrectRun(c, s, [e] + rest) <==> CorrectRun(c, Next(c, s, e).value, rest)
  {
    hide Next, ReadsOwnLatents, SameCell;
    assert ([e] + rest)[1..] == rest;
  }

  lemma RunOfTwo(c: Config, s: System, e: Event, f: Event)
    requires Correct(c, s, e)
    ensures CorrectRun(c, s, [e, f]) <==> Correct(c, Next(c, s, e).value, f)
  {
    hide Next, ReadsOwnLatents, SameCell;
    RunStep(c, s, e, [f]);
    assert [e, f] == [e] + [f];
    assert [f][1..] == [];
  }

  // ----- One input

  const ONE_BLOCK: Config := Config(INDEX_TOPK, INDEX_TOPK, 1)

  /** A request on block 0 whose whole top-k row names token 7. */
  ghost function SevenOnly(): Decode {
    Decode("a", [0], seq(INDEX_TOPK, p => 7), [INDEX_TOPK])
  }

  lemma SevenIsEligible()
    ensures Eligible(ONE_BLOCK, SevenOnly()) && 7 in Selected(SevenOnly().source, SevenOnly().boundaries)
  {
    hide SelectedUpTo;
    var d := SevenOnly();
    SelectedMembers(d.source, d.boundaries, |d.source|);
    assert Offloaded(d.source, d.boundaries, 0) && d.source[0] == 7;
  }

  /** From an empty start, decoding token 7 twice around a foreign write goes wrong unless the request went cold. */
  lemma OverwrittenSevenIsMisread()
    ensures Eligible(ONE_BLOCK, SevenOnly())
    ensures var start := System(Fresh(1), [Row(-1, map[])], map[], {});
            && !CorrectRun(ONE_BLOCK, start, Reused(ONE_BLOCK, SevenOnly(), false))
            && CorrectRun(ONE_BLOCK, start, Reused(ONE_BLOCK, SevenOnly(), true))
  {
    hide SelectedUpTo, CorrectRun, ScratchTable, RowTrusted, Reused, SevenOnly, Eligible;
    SevenIsEligible();
    var start := System(Fresh(1), [Row(-1, map[])], map[], {});
    StartupState(ONE_BLOCK, 1, start.rows, map[]);
    ColdBeforeOverwriteDecides(ONE_BLOCK, start, SevenOnly(), false);
    ColdBeforeOverwriteDecides(ONE_BLOCK, start, SevenOnly(), true);
  }
}
