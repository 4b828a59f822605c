/**
  Registry, planner and memory together, over whole runs.

  A run interleaves decode batches with requests finishing, requests being made cold and any other
  writes to the paged memory.  The theorem at the end says that no such run makes a decode step
  fail or read a latent other than the one its top-k entry names.
 */
module ResidentSystem {
  import opened Options
  import opened SortedSets
  import opened ResidentPlanner
  import opened ResidentRequest
  import opened ResidentRegistry
  import opened ResidentMemory

  /** A persistent state row: the residency and the generation it was written for. */
  datatype Row = Row(generation: int, resident: Residency)

  /**
    `dirty` names the requests whose scratch something else has written to since it was last
    consistent with their row.
   */
  datatype System = System(registry: Registry, rows: seq<Row>, memory: Memory, dirty: set<string>)

  /** One request of a decode batch: its block table, its top-k rows and the boundary of each row. */
  datatype Decode = Decode(id: string, table: seq<nat>, source: seq<int>, boundaries: seq<int>)

  datatype Event =
    | Finish(ids: seq<string>)
    | GoCold(ids: seq<string>)
    | Overwrite(cells: Memory)
    | DecodeBatch(batch: seq<Decode>)

  // ----- Scratch blocks

  function ScratchBlocks(c: Config): nat
    requires c.blockSize > 0
  {
    (c.capacity + c.blockSize - 1) / c.blockSize
  }

  /** What a decode request must bring: well-shaped rows no wider than the scratch, and distinct blocks to back it. */
  ghost predicate Eligible(c: Config, d: Decode) {
    && ValidConfig(c)
    && WellShaped(d.source, d.boundaries) && |d.source| <= c.capacity
    && NoDuplicates(d.table) && ScratchBlocks(c) <= |d.table|
  }

  ghost function ScratchTable(c: Config, d: Decode): (t: Signature)
    requires Eligible(c, d)
    ensures Backs(c, t) && t <= d.table
  {
    var x := c.capacity + c.blockSize - 1;
    assert x == x / c.blockSize * c.blockSize + x % c.blockSize;
    d.table[..ScratchBlocks(c)]
  }

  ghost predicate Meets(c: Config, sig: Option<Signature>, addresses: set<nat>) {
    sig.Some? && Backs(c, sig.value) && !(Scratch(c, sig.value) !! addresses)
  }

  /** Requests holding a row whose scratch meets the addresses. */
  ghost function Disturbed(c: Config, r: Registry, addresses: set<nat>): set<string>
    requires Valid(r)
  {
    set q | q in r.rowOf && Meets(c, r.signature[r.rowOf[q]], addresses)
  }

  // ----- Transitions

  lemma {:induction false} FirstBeyondExists(slots: seq<nat>, capacity: nat, k: nat)
    requires k < |slots| && slots[k] >= capacity
    ensures exists i :: 0 <= i < |slots| && slots[i] >= capacity && forall j :: 0 <= j < i ==> slots[j] < capacity
  {
    if j :| 0 <= j < k && slots[j] >= capacity {
      FirstBeyondExists(slots, capacity, j);
    }
  }

  lemma PlannedFits(shards: seq<seq<nat>>, resident: Residency, capacity: nat)
    ensures var plan := ReferencePlan(shards, resident, capacity);
            plan.Planned? ==>
              |plan.misses| == |plan.missSlots| && forall k :: 0 <= k < |plan.missSlots| ==> plan.missSlots[k] < capacity
  {
    var plan := ReferencePlan(shards, resident, capacity);
    if plan.Planned? {
      forall k | 0 <= k < |plan.missSlots|
        ensures plan.missSlots[k] < capacity
      {
        if plan.missSlots[k] >= capacity {
          FirstBeyondExists(plan.missSlots, capacity, k);
        }
      }
    }
  }

  /** The residency a request starts from: its row's, if the generation is still the same. */
  ghost function TrustedResidency(s: System, b: Binding): Residency
    requires b.row < |s.rows|
  {
    if s.rows[b.row].generation == b.generation then s.rows[b.row].resident else map[]
  }

  ghost function RequestPlan(c: Config, s: System, d: Decode, b: Binding): (plan: Plan)
    requires Eligible(c, d) && b.row < |s.rows|
    ensures plan.Planned? ==>
              && |plan.misses| == |plan.missSlots|
              && forall k :: 0 <= k < |plan.missSlots| ==> plan.missSlots[k] < c.capacity
  {
    var shards := Sharded(Selected(d.source, d.boundaries), c.shardCount);
    PlannedFits(shards, TrustedResidency(s, b), c.capacity);
    ReferencePlan(shards, TrustedResidency(s, b), c.capacity)
  }

  /** Planning one bound request and loading its misses. */
  ghost function RequestStep(c: Config, s: System, d: Decode, b: Binding): Option<System>
    requires Valid(s.registry) && Eligible(c, d) && b.row < |s.rows|
  {
    var plan := RequestPlan(c, s, d, b);
    if !plan.Planned? then None
    else
      var table := ScratchTable(c, d);
      Some(System(s.registry,
                  s.rows[b.row := Row(b.generation, plan.resident)],
                  Load(c, s.memory, d.id, table, plan.misses, plan.missSlots),
                  s.dirty + (Disturbed(c, s.registry, Scratch(c, table)) - {d.id})))
  }

  ghost predicate EligibleBatch(c: Config, batch: seq<Decode>) {
    forall i :: 0 <= i < |batch| ==> Eligible(c, batch[i])
  }

  ghost function BatchSteps(c: Config, s: System, batch: seq<Decode>, bindings: seq<Binding>, upTo: nat): (o: Option<System>)
    requires Valid(s.registry) && EligibleBatch(c, batch) && upTo <= |batch| == |bindings|
    requires forall i :: 0 <= i < |bindings| ==> bindings[i].row < |s.rows|
    ensures o.Some? ==> o.value.registry == s.registry && |o.value.rows| == |s.rows|
  {
    if upTo == 0 then Some(s)
    else
      var earlier := BatchSteps(c, s, batch, bindings, upTo - 1);
      if earlier.None? then None else RequestStep(c, earlier.value, batch[upTo - 1], bindings[upTo - 1])
  }

  ghost function Ids(batch: seq<Decode>): seq<string> {
    seq(|batch|, i requires 0 <= i < |batch| => batch[i].id)
  }

  ghost function ScratchTables(c: Config, batch: seq<Decode>): seq<Signature>
    requires EligibleBatch(c, batch)
  {
    seq(|batch|, i requires 0 <= i < |batch| => ScratchTable(c, batch[i]))
  }

  ghost predicate Shaped(s: System) {
    Valid(s.registry) && |s.rows| == |s.registry.owner|
  }

  /** The state in which a batch is planned: rows are bound, bound requests start clean. */
  ghost function AfterBind(s: System, bound: Bound, batch: seq<Decode>): System {
    s.(registry := bound.registry, dirty := s.dirty - set i | 0 <= i < |batch| :: batch[i].id)
  }

  ghost predicate RowsInRange(s: System, bound: Bound, batch: seq<Decode>) {
    && Valid(bound.registry) && |bound.bindings| == |batch|
    && (forall i :: 0 <= i < |batch| ==> bound.bindings[i].row < |s.rows|)
  }

  ghost function Next(c: Config, s: System, e: Event): Option<System>
    requires Shaped(s) && (e.DecodeBatch? ==> EligibleBatch(c, e.batch))
  {
    match e
    case Finish(ids) => Some(s.(registry := Release(s.registry, ids), dirty := s.dirty - set q | q in ids))
    case GoCold(ids) => Some(s.(registry := Invalidate(s.registry, ids), dirty := s.dirty - set q | q in ids))
    case Overwrite(cells) =>
      Some(s.(memory := s.memory + cells, dirty := s.dirty + Disturbed(c, s.registry, cells.Keys)))
    case DecodeBatch(batch) =>
      var o := Bind(s.registry, Ids(batch), ScratchTables(c, batch));
      if o.BoundAll? && RowsInRange(s, o.bound, batch)
      then BatchSteps(c, AfterBind(s, o.bound, batch), batch, o.bound.bindings, |batch|)
      else None
  }

  // ----- What every reachable state keeps

  /** If a row's generation is current, its residency is dense and, unless dirty, backed by memory. */
  ghost predicate RowTrusted(c: Config, s: System, r: nat)
    requires Shaped(s) && r < |s.rows|
  {
    && s.rows[r].generation <= s.registry.generation[r]
    && (s.rows[r].generation == s.registry.generation[r] ==>
          && s.registry.owner[r].Some? && s.registry.signature[r].Some?
          && Trusted(c, s, s.registry.owner[r].value, s.registry.signature[r].value, s.rows[r].resident))
  }

  ghost predicate Trusted(c: Config, s: System, q: string, sig: Signature, resident: Residency) {
    && Backs(c, sig) && Dense(resident) && |resident| <= c.capacity
    && (q !in s.dirty ==> Holds(c, s.memory, q, sig, resident))
  }

  ghost predicate Inv(c: Config, s: System) {
    && ValidConfig(c) && Shaped(s)
    && (forall r :: 0 <= r < |s.rows| ==> RowTrusted(c, s, r))
  }

  /** At startup every row carries generation -1 and nothing is bound. */
  lemma StartupState(c: Config, maxStates: nat, rows: seq<Row>, memory: Memory)
    requires ValidConfig(c) && |rows| == maxStates && forall r :: 0 <= r < |rows| ==> rows[r].generation == -1
    ensures Inv(c, System(Fresh(maxStates), rows, memory, {}))
  {
  }

  /** Changes of the registry that move generations forward keep every row trusted. */
  lemma AdvanceKeepsInv(c: Config, s: System, s': System)
    requires Inv(c, s) && Advances(s.registry, s'.registry)
    requires s'.rows == s.rows && s'.memory == s.memory
    requires forall r :: 0 <= r < |s.rows| && s.rows[r].generation == s'.registry.generation[r]
                         && s'.registry.owner[r].Some? && s'.registry.owner[r].value in s.dirty ==>
               s'.registry.owner[r].value in s'.dirty
    ensures Inv(c, s')
  {
    hide Backs, Holds, Dense;
    forall r | 0 <= r < |s'.rows|
      ensures RowTrusted(c, s', r)
    {
      assert RowTrusted(c, s, r);
    }
  }

  lemma FinishKeepsInv(c: Config, s: System, ids: seq<string>)
    requires Inv(c, s)
    ensures Inv(c, Next(c, s, Finish(ids)).value)
  {
    hide Release, RowTrusted;
    ReleaseAdvances(s.registry, ids);
    AdvanceKeepsInv(c, s, Next(c, s, Finish(ids)).value);
  }

  lemma GoColdKeepsInv(c: Config, s: System, ids: seq<string>)
    requires Inv(c, s)
    ensures Inv(c, Next(c, s, GoCold(ids)).value)
  {
    hide Invalidate;
    InvalidateAdvances(s.registry, ids);
    var s' := Next(c, s, GoCold(ids)).value;
    forall r | 0 <= r < |s.rows| && s.rows[r].generation == s'.registry.generation[r]
               && s'.registry.owner[r].Some? && s'.registry.owner[r].value in s.dirty
      ensures s'.registry.owner[r].value in s'.dirty
    {
      assert RowTrusted(c, s, r);
      var q := s'.registry.owner[r].value;
      assert s'.registry.rowOf[q] == r && s.registry.rowOf[q] == r;
    }
    AdvanceKeepsInv(c, s, s');
  }

  lemma OverwriteKeepsInv(c: Config, s: System, cells: Memory)
    requires Inv(c, s)
    ensures Inv(c, Next(c, s, Overwrite(cells)).value)
  {
    var s' := Next(c, s, Overwrite(cells)).value;
    forall r | 0 <= r < |s'.rows|
      ensures RowTrusted(c, s', r)
    {
      assert RowTrusted(c, s, r);
      if s.rows[r].generation == s.registry.generation[r] {
        var q, sig := s.registry.owner[r].value, s.registry.signature[r].value;
        if q !in s'.dirty {
          UntouchedHolds(c, s.memory, cells, q, sig, s.rows[r].resident);
        }
      }
    }
  }

  lemma UntouchedHolds(c: Config, memory: Memory, cells: Memory, q: string, sig: Signature, resident: Residency)
    requires Backs(c, sig) && Holds(c, memory, q, sig, resident)
    requires Scratch(c, sig) !! cells.Keys
    ensures Holds(c, memory + cells, q, sig, resident)
  {
    hide SlotAddress, Backs;
    forall t | t in resident
      ensures SlotAddress(c, sig, resident[t]) !in cells
    {
      assert SlotAddress(c, sig, resident[t]) in Scratch(c, sig);
    }
  }

  // ----- One request of a batch

  /** The request holds the row of its binding for its own scratch blocks, and its scratch is clean. */
  ghost predicate ReadyFor(c: Config, s: System, d: Decode, b: Binding) {
    && Eligible(c, d) && b.row < |s.rows|
    && HoldsRow(s.registry, d.id, ScratchTable(c, d), b) && d.id !in s.dirty
  }

  /** The row now records this generation and holds every token the request selected. */
  ghost predicate Served(c: Config, s: System, d: Decode, b: Binding) {
    && Eligible(c, d) && b.row < |s.rows|
    && s.rows[b.row].generation == b.generation
    && Selected(d.source, d.boundaries) <= s.rows[b.row].resident.Keys
  }

  lemma TrustedStart(c: Config, s: System, d: Decode, b: Binding)
    requires Inv(c, s) && ReadyFor(c, s, d, b)
    ensures var before := TrustedResidency(s, b);
            Dense(before) && |before| <= c.capacity && Holds(c, s.memory, d.id, ScratchTable(c, d), before)
  {
    assert RowTrusted(c, s, b.row);
  }

  /** Neither the density error nor the capacity error fires, and the plan meets its specification. */
  lemma RequestPlanned(c: Config, s: System, d: Decode, b: Binding)
    requires Inv(c, s) && ReadyFor(c, s, d, b)
    ensures var plan := RequestPlan(c, s, d, b);
            && StepOutcome(TrustedResidency(s, b), Selected(d.source, d.boundaries), plan)
            && |plan.resident| <= c.capacity
  {
    hide StepOutcome, Holds, RequestPlan, TrustedResidency, Selected, Dense;
    TrustedStart(c, s, d, b);
    PlannedFromDense(c, s, d, b);
  }

  /** A dense residency within capacity is planned as specified, whatever memory holds. */
  lemma PlannedFromDense(c: Config, s: System, d: Decode, b: Binding)
    requires Eligible(c, d) && b.row < |s.rows|
    requires Dense(TrustedResidency(s, b)) && |TrustedResidency(s, b)| <= c.capacity
    ensures StepOutcome(TrustedResidency(s, b), Selected(d.source, d.boundaries), RequestPlan(c, s, d, b))
    ensures |RequestPlan(c, s, d, b).resident| <= c.capacity
  {
    hide StepOutcome, Dense, TrustedResidency;
    var selected := Selected(d.source, d.boundaries);
    SelectedMembers(d.source, d.boundaries, |d.source|);
    ShardedPartition(selected, c.shardCount);
    PlanMeetsSpecification(Sharded(selected, c.shardCount), TrustedResidency(s, b), c.capacity);
    OutcomeSize(TrustedResidency(s, b), selected, RequestPlan(c, s, d, b));
  }

  lemma OutcomeSize(before: Residency, current: set<nat>, plan: Plan)
    requires StepOutcome(before, current, plan)
    ensures |plan.resident| == Max(|before|, |current|) && Dense(plan.resident) && current <= plan.resident.Keys
  {
  }

  lemma OwnRowTrusted(c: Config, s: System, d: Decode, b: Binding)
    requires Inv(c, s) && ReadyFor(c, s, d, b)
    ensures RequestStep(c, s, d, b).Some?
    ensures var s' := RequestStep(c, s, d, b).value;
            Shaped(s') && RowTrusted(c, s', b.row) && Served(c, s', d, b)
  {
    hide StepOutcome, Dense, Load, Holds, Scratch, RequestPlan, TrustedResidency, Selected;
    TrustedStart(c, s, d, b);
    RequestPlanned(c, s, d, b);
    var plan := RequestPlan(c, s, d, b);
    OutcomePlanned(TrustedResidency(s, b), Selected(d.source, d.boundaries), plan);
    OutcomeSize(TrustedResidency(s, b), Selected(d.source, d.boundaries), plan);
    MissLoadSuffices(c, s.memory, d.id, ScratchTable(c, d), TrustedResidency(s, b), Selected(d.source, d.boundaries), plan);
  }

  lemma OutcomePlanned(before: Residency, current: set<nat>, plan: Plan)
    requires StepOutcome(before, current, plan)
    ensures plan.Planned?
  {
  }

  lemma NotMeeting(c: Config, a: Signature, b: Signature)
    requires Backs(c, a) && Backs(c, b)
    ensures Meets(c, Some(a), Scratch(c, b)) <==> !(Scratch(c, b) !! Scratch(c, a))
  {
    hide Scratch;
  }

  lemma OtherRowTrusted(c: Config, s: System, d: Decode, b: Binding, r: nat)
    requires Inv(c, s) && ReadyFor(c, s, d, b) && RequestStep(c, s, d, b).Some?
    requires r < |s.rows| && r != b.row
    ensures RowTrusted(c, RequestStep(c, s, d, b).value, r)
  {
    hide Load, Holds, Scratch, Dense, RequestPlan;
    var s' := RequestStep(c, s, d, b).value;
    assert RowTrusted(c, s, r);
    if s.rows[r].generation == s.registry.generation[r] {
      var q, sig := s.registry.owner[r].value, s.registry.signature[r].value;
      if q !in s'.dirty {
        var plan := RequestPlan(c, s, d, b);
        assert s.registry.rowOf[q] == r;
        assert !Meets(c, Some(sig), Scratch(c, ScratchTable(c, d)));
        NotMeeting(c, sig, ScratchTable(c, d));
        DisjointLoadKeeps(c, s.memory, d.id, ScratchTable(c, d), plan.misses, plan.missSlots, q, sig, s.rows[r].resident);
      }
    }
  }

  lemma RequestStepKeepsInv(c: Config, s: System, d: Decode, b: Binding)
    requires Inv(c, s) && ReadyFor(c, s, d, b)
    ensures RequestStep(c, s, d, b).Some?
    ensures var s' := RequestStep(c, s, d, b).value;
            Inv(c, s') && Served(c, s', d, b) && s'.registry == s.registry && |s'.rows| == |s.rows|
  {
    hide RowTrusted, Served, Load, Scratch, RequestPlan, Disturbed, HoldsRow, Valid, ScratchTable;
    OwnRowTrusted(c, s, d, b);
    forall r | 0 <= r < |s.rows| && r != b.row
      ensures RowTrusted(c, RequestStep(c, s, d, b).value, r)
    {
      OtherRowTrusted(c, s, d, b, r);
    }
  }

  /** Planning one request leaves the other requests of the batch ready or served as they were. */
  lemma StepKeepsOthers(c: Config, s: System, d: Decode, b: Binding, other: Decode, ob: Binding)
    requires Inv(c, s) && ReadyFor(c, s, d, b) && RequestStep(c, s, d, b).Some?
    requires ReadyFor(c, s, other, ob) && ob.row != b.row && d.id != other.id
    requires forall x :: x in d.table ==> x !in other.table
    ensures var s' := RequestStep(c, s, d, b).value;
            ReadyFor(c, s', other, ob) && (Served(c, s, other, ob) ==> Served(c, s', other, ob))
  {
    hide Load, Scratch, RequestPlan, Backs, Eligible, Meets, RowTrusted, Selected;
    var a, o := ScratchTable(c, d), ScratchTable(c, other);
    assert forall x :: x in a ==> x in d.table;
    assert forall x :: x in o ==> x in other.table;
    SeparateTables(c, a, o);
    NotMeeting(c, o, a);
  }

  // ----- A whole batch

  ghost predicate SeparateRequests(batch: seq<Decode>) {
    forall i, j :: 0 <= i < |batch| && 0 <= j < |batch| && i != j ==>
      && batch[i].id != batch[j].id
      && (forall x :: x in batch[i].table ==> x !in batch[j].table)
  }

  /**
    What the scheduler owes a batch: different requests on different blocks, no more than there
    are rows, and no request that comes back on the same blocks, in the generation its row was
    written for, after something else wrote to its scratch.
   */
  ghost predicate AdmissibleBatch(c: Config, s: System, batch: seq<Decode>)
    requires Shaped(s)
  {
    && EligibleBatch(c, batch) && SeparateRequests(batch) && |batch| <= |s.rows|
    && (forall i :: 0 <= i < |batch| && Resumes(c, s, batch[i]) ==> batch[i].id !in s.dirty)
  }

  /** The request is still bound to the same blocks and its row is of the current generation. */
  ghost predicate Resumes(c: Config, s: System, d: Decode)
    requires Shaped(s) && Eligible(c, d)
  {
    && d.id in s.registry.rowOf
    && var row := s.registry.rowOf[d.id];
    && s.registry.signature[row] == Some(ScratchTable(c, d))
    && s.rows[row].generation == s.registry.generation[row]
  }

  ghost predicate BatchReady(c: Config, s: System, batch: seq<Decode>, bindings: seq<Binding>) {
    && Inv(c, s) && |batch| == |bindings| && SeparateRequests(batch)
    && (forall i :: 0 <= i < |batch| ==> ReadyFor(c, s, batch[i], bindings[i]))
    && (forall i, j :: 0 <= i < |batch| && 0 <= j < |batch| && i != j ==> bindings[i].row != bindings[j].row)
  }

  lemma BindReadies(c: Config, s: System, batch: seq<Decode>)
    requires Inv(c, s) && AdmissibleBatch(c, s, batch)
    ensures var o := Bind(s.registry, Ids(batch), ScratchTables(c, batch));
            && o.BoundAll? && RowsInRange(s, o.bound, batch)
            && BatchReady(c, AfterBind(s, o.bound, batch), batch, o.bound.bindings)
  {
    hide Bind, RowTrusted, ScratchTable, Trusted, Backs, Eligible;
    var ids, sigs := Ids(batch), ScratchTables(c, batch);
    BindKeepsTrust(s.registry, ids, sigs);
    var bound := Bind(s.registry, ids, sigs).bound;
    var s' := AfterBind(s, bound, batch);
    forall i | 0 <= i < |batch|
      ensures HoldsRow(bound.registry, batch[i].id, ScratchTable(c, batch[i]), bound.bindings[i])
      ensures batch[i].id !in s'.dirty
    {
      assert HoldsRow(bound.registry, ids[i], sigs[i], bound.bindings[i]);
    }
    CleanOwners(c, s, bound, batch);
    AdvanceKeepsInv(c, s, s');
  }

  /** A request that is cleaned by being bound has a row that the old generation does not reach. */
  lemma CleanOwners(c: Config, s: System, bound: Bound, batch: seq<Decode>)
    requires Inv(c, s) && AdmissibleBatch(c, s, batch)
    requires Advances(s.registry, bound.registry) && |bound.bindings| == |batch|
    requires forall i :: 0 <= i < |batch| ==>
               HoldsRow(bound.registry, batch[i].id, ScratchTable(c, batch[i]), bound.bindings[i])
    ensures var s' := AfterBind(s, bound, batch);
            forall r :: 0 <= r < |s.rows| && s.rows[r].generation == s'.registry.generation[r]
                        && s'.registry.owner[r].Some? && s'.registry.owner[r].value in s.dirty ==>
              s'.registry.owner[r].value in s'.dirty
  {
    hide ScratchTable, Trusted, Backs, Eligible;
    var s' := AfterBind(s, bound, batch);
    forall r | 0 <= r < |s.rows| && s.rows[r].generation == s'.registry.generation[r]
               && s'.registry.owner[r].Some? && s'.registry.owner[r].value in s.dirty
      ensures s'.registry.owner[r].value in s'.dirty
    {
      assert RowTrusted(c, s, r);
      var q := s'.registry.owner[r].value;
      assert s.registry.rowOf[q] == r == bound.registry.rowOf[q];
    }
  }

  lemma {:induction false} BatchStepsKeepInv(c: Config, s: System, batch: seq<Decode>, bindings: seq<Binding>, upTo: nat)
    requires BatchReady(c, s, batch, bindings) && upTo <= |batch|
    ensures EligibleBatch(c, batch) && BatchSteps(c, s, batch, bindings, upTo).Some?
    ensures var s' := BatchSteps(c, s, batch, bindings, upTo).value;
            && BatchReady(c, s', batch, bindings)
            && (forall i :: 0 <= i < upTo ==> Served(c, s', batch[i], bindings[i]))
  {
    hide RequestStep, ReadyFor, Served, Inv;
    BatchIsEligible(c, s, batch, bindings);
    if upTo > 0 {
      var k := upTo - 1;
      BatchStepsKeepInv(c, s, batch, bindings, k);
      var s1 := BatchSteps(c, s, batch, bindings, k).value;
      RequestStepKeepsInv(c, s1, batch[k], bindings[k]);
      forall i | 0 <= i < |batch|
        ensures ReadyFor(c, RequestStep(c, s1, batch[k], bindings[k]).value, batch[i], bindings[i])
        ensures i < upTo ==> Served(c, RequestStep(c, s1, batch[k], bindings[k]).value, batch[i], bindings[i])
      {
        if i == k {
          StepKeepsReady(c, s1, batch[k], bindings[k]);
        } else {
          StepKeepsOthers(c, s1, batch[k], bindings[k], batch[i], bindings[i]);
        }
      }
    }
  }

  lemma BatchIsEligible(c: Config, s: System, batch: seq<Decode>, bindings: seq<Binding>)
    requires BatchReady(c, s, batch, bindings)
    ensures EligibleBatch(c, batch) && Valid(s.registry)
    ensures forall i :: 0 <= i < |bindings| ==> bindings[i].row < |s.rows|
  {
    hide Eligible, RowTrusted, HoldsRow;
    forall i | 0 <= i < |batch|
      ensures Eligible(c, batch[i]) && bindings[i].row < |s.rows|
    {
      assert ReadyFor(c, s, batch[i], bindings[i]);
    }
  }

  lemma StepKeepsReady(c: Config, s: System, d: Decode, b: Binding)
    requires Inv(c, s) && ReadyFor(c, s, d, b) && RequestStep(c, s, d, b).Some?
    ensures ReadyFor(c, RequestStep(c, s, d, b).value, d, b)
  {
    hide Load, Scratch, RequestPlan, Backs, Eligible, RowTrusted;
  }

  // ----- What a decode step reads

  ghost predicate EntriesResident(c: Config, d: Decode, resident: Residency)
    requires Eligible(c, d)
  {
    forall p :: 0 <= p < |d.source| && Offloaded(d.source, d.boundaries, p) ==>
      d.source[p] as nat in resident && resident[d.source[p] as nat] < c.capacity
  }

  /**
    Every offloaded top-k entry of the request, after remapping, addresses the cell that holds the
    latent of the token it named; every other entry is left as it was.
   */
  ghost predicate ReadsOwnLatents(c: Config, s: System, d: Decode, b: Binding) {
    && Eligible(c, d) && b.row < |s.rows| && EntriesResident(c, d, s.rows[b.row].resident)
    && (forall p :: 0 <= p < |d.source| && Offloaded(d.source, d.boundaries, p) ==>
          var entry := Remapped(d.source, d.boundaries, s.rows[b.row].resident)[p];
          && 0 <= entry < c.capacity
          && SlotAddress(c, ScratchTable(c, d), entry) in s.memory
          && s.memory[SlotAddress(c, ScratchTable(c, d), entry)] == Latent(d.id, d.source[p] as nat))
    && (forall p :: 0 <= p < |d.source| && !Offloaded(d.source, d.boundaries, p) ==>
          Remapped(d.source, d.boundaries, s.rows[b.row].resident)[p] == d.source[p])
  }

  lemma ServedReads(c: Config, s: System, d: Decode, b: Binding)
    requires Inv(c, s) && ReadyFor(c, s, d, b) && Served(c, s, d, b)
    ensures ReadsOwnLatents(c, s, d, b)
  {
    hide SlotAddress, Backs;
    assert RowTrusted(c, s, b.row);
    SelectedMembers(d.source, d.boundaries, |d.source|);
    var resident := s.rows[b.row].resident;
    forall p | 0 <= p < |d.source| && Offloaded(d.source, d.boundaries, p)
      ensures d.source[p] as nat in resident
    {
      assert d.source[p] as nat in Selected(d.source, d.boundaries);
    }
  }

  // ----- Positions left in place

  /** Nothing is selected, or no entry left in place reads a position that the scratch covers. */
  ghost predicate ScratchClear(c: Config, d: Decode)
    requires Eligible(c, d)
  {
    || Selected(d.source, d.boundaries) == {}
    || (forall p :: 0 <= p < |d.source| && !Offloaded(d.source, d.boundaries, p) && d.source[p] >= 0 ==>
          c.capacity <= d.source[p])
  }

  /** The cell a top-k entry left in place reads. */
  ghost predicate InPlace(c: Config, d: Decode, a: nat) {
    && Eligible(c, d)
    && exists p :: 0 <= p < |d.source| && !Offloaded(d.source, d.boundaries, p) && InPlaceAt(c, d, p, a)
  }

  ghost predicate InPlaceAt(c: Config, d: Decode, p: nat, a: nat)
    requires c.blockSize > 0 && p < |d.source|
  {
    && 0 <= d.source[p] && d.source[p] / c.blockSize < |d.table|
    && a == Address(d.table, c.blockSize, d.source[p])
  }

  ghost predicate SameCell(m: Memory, m': Memory, a: nat) {
    (a in m <==> a in m') && (a in m ==> m[a] == m'[a])
  }

  /** Planning a request does not write to the cells its own in-place entries read. */
  lemma OwnInPlaceKept(c: Config, s: System, d: Decode, b: Binding, a: nat)
    requires Valid(s.registry) && Eligible(c, d) && b.row < |s.rows| && RequestStep(c, s, d, b).Some?
    requires Dense(TrustedResidency(s, b)) && |TrustedResidency(s, b)| <= c.capacity
    requires ScratchClear(c, d) && InPlace(c, d, a)
    ensures SameCell(s.memory, RequestStep(c, s, d, b).value.memory, a)
  {
    hide Load, StepOutcome, SlotAddress, RequestPlan, Valid, Dense, TrustedResidency;
    PlannedFromDense(c, s, d, b);
    var plan := RequestPlan(c, s, d, b);
    if Selected(d.source, d.boundaries) == {} {
      NothingLoaded(TrustedResidency(s, b), plan);
      LoadKeeps(c, s.memory, d.id, ScratchTable(c, d), plan.misses, plan.missSlots, a);
    } else {
      var p :| 0 <= p < |d.source| && !Offloaded(d.source, d.boundaries, p) && InPlaceAt(c, d, p, a);
      forall i | 0 <= i < |plan.missSlots|
        ensures a != SlotAddress(c, ScratchTable(c, d), plan.missSlots[i])
      {
        SlotBelowPosition(c, d, plan.missSlots[i], d.source[p]);
      }
      LoadKeeps(c, s.memory, d.id, ScratchTable(c, d), plan.misses, plan.missSlots, a);
    }
  }

  lemma NothingLoaded(before: Residency, plan: Plan)
    requires StepOutcome(before, {}, plan)
    ensures plan.misses == [] && plan.missSlots == []
  {
    NoDuplicatesCount(plan.misses);
  }

  lemma SlotBelowPosition(c: Config, d: Decode, slot: nat, position: nat)
    requires Eligible(c, d) && slot < c.capacity <= position && position / c.blockSize < |d.table|
    ensures SlotAddress(c, ScratchTable(c, d), slot) != Address(d.table, c.blockSize, position)
  {
    hide Address, ScratchTable, Backs, ScratchBlocks, WellShaped;
    var table := ScratchTable(c, d);
    SlotHasBlock(c, table, slot);
    LongerTable(table, d.table, c.blockSize, slot);
    if Address(d.table, c.blockSize, slot) == Address(d.table, c.blockSize, position) {
      AddressInjective(d.table, c.blockSize, slot, position);
    }
  }

  lemma LongerTable(table: seq<nat>, longer: seq<nat>, blockSize: nat, position: nat)
    requires blockSize > 0 && table <= longer && position / blockSize < |table|
    ensures Address(table, blockSize, position) == Address(longer, blockSize, position)
  {
  }

  lemma DifferentBlocks(c: Config, table: Signature, slot: nat, other: seq<nat>, position: nat)
    requires Backs(c, table) && slot < c.capacity && position / c.blockSize < |other|
    requires forall x :: x in table ==> x !in other
    ensures SlotAddress(c, table, slot) != Address(other, c.blockSize, position)
  {
    hide SlotAddress, Address;
    BlockOfSlot(c, table, slot);
    AddressInBlock(other, c.blockSize, position);
  }

  /** Planning another request on other blocks does not write to them either. */
  lemma OtherInPlaceKept(c: Config, s: System, d: Decode, b: Binding, other: Decode, a: nat)
    requires Valid(s.registry) && Eligible(c, d) && b.row < |s.rows| && RequestStep(c, s, d, b).Some?
    requires InPlace(c, other, a) && forall x :: x in d.table ==> x !in other.table
    ensures SameCell(s.memory, RequestStep(c, s, d, b).value.memory, a)
  {
    hide Load, SlotAddress, RequestPlan, Address, Valid;
    var plan := RequestPlan(c, s, d, b);
    var table := ScratchTable(c, d);
    assert forall x :: x in table ==> x in d.table;
    var p :| 0 <= p < |other.source| && !Offloaded(other.source, other.boundaries, p) && InPlaceAt(c, other, p, a);
    var position: nat := other.source[p];
    assert position / c.blockSize < |other.table| && a == Address(other.table, c.blockSize, position);
    forall i | 0 <= i < |plan.missSlots|
      ensures a != SlotAddress(c, table, plan.missSlots[i])
    {
      DifferentBlocks(c, table, plan.missSlots[i], other.table, position);
    }
    LoadKeeps(c, s.memory, d.id, table, plan.misses, plan.missSlots, a);
  }

  lemma {:induction false} BatchInPlaceKept(c: Config, s: System, batch: seq<Decode>, bindings: seq<Binding>, upTo: nat, k: nat, a: nat)
    requires BatchReady(c, s, batch, bindings) && upTo <= |batch| && k < |batch| && EligibleBatch(c, batch)
    requires ScratchClear(c, batch[k]) && InPlace(c, batch[k], a)
    ensures EligibleBatch(c, batch) && BatchSteps(c, s, batch, bindings, upTo).Some?
    ensures SameCell(s.memory, BatchSteps(c, s, batch, bindings, upTo).value.memory, a)
  {
    hide RequestStep, ReadyFor, Served, Inv, InPlace, ScratchClear;
    BatchIsEligible(c, s, batch, bindings);
    BatchStepsKeepInv(c, s, batch, bindings, upTo);
    if upTo > 0 {
      var i := upTo - 1;
      BatchInPlaceKept(c, s, batch, bindings, i, k, a);
      BatchStepsKeepInv(c, s, batch, bindings, i);
      var s1 := BatchSteps(c, s, batch, bindings, i).value;
      BatchIsEligible(c, s1, batch, bindings);
      if i == k {
        TrustedStart(c, s1, batch[i], bindings[i]);
        OwnInPlaceKept(c, s1, batch[i], bindings[i], a);
      } else {
        OtherInPlaceKept(c, s1, batch[i], bindings[i], batch[k], a);
      }
    }
  }

  // ----- Whole runs

  ghost predicate Admissible(c: Config, s: System, e: Event) {
    Shaped(s) && (e.DecodeBatch? ==> AdmissibleBatch(c, s, e.batch))
  }

  /** The bindings a batch is given. */
  ghost function BindingsFor(c: Config, s: System, batch: seq<Decode>): seq<Binding>
    requires Shaped(s) && EligibleBatch(c, batch)
  {
    var o := Bind(s.registry, Ids(batch), ScratchTables(c, batch));
    if o.BoundAll? then o.bound.bindings else []
  }

  /**
    The event succeeds.  If it decodes, every request of the batch reads, once the whole batch is
    loaded, its own latents through the remapped entries, and the cells read by entries left in
    place are as they were.
   */
  ghost predicate Correct(c: Config, s: System, e: Event) {
    && Shaped(s) && (e.DecodeBatch? ==> EligibleBatch(c, e.batch))
    && Next(c, s, e).Some?
    && (e.DecodeBatch? ==>
          var s', bindings := Next(c, s, e).value, BindingsFor(c, s, e.batch);
          && |bindings| == |e.batch|
          && (forall k :: 0 <= k < |e.batch| ==> ReadsOwnLatents(c, s', e.batch[k], bindings[k]))
          && (forall k, a :: 0 <= k < |e.batch| && ScratchClear(c, e.batch[k]) && InPlace(c, e.batch[k], a) ==>
                SameCell(s.memory, s'.memory, a)))
  }

  lemma BatchCorrect(c: Config, s: System, batch: seq<Decode>)
    requires Inv(c, s) && AdmissibleBatch(c, s, batch)
    ensures Correct(c, s, DecodeBatch(batch)) && Inv(c, Next(c, s, DecodeBatch(batch)).value)
  {
    hide BatchSteps, ReadyFor, Served, ReadsOwnLatents, InPlace, ScratchClear, RowTrusted, Bind, SameCell,
         SeparateRequests, Eligible, ScratchTables, Ids;
    BindReadies(c, s, batch);
    var bound := Bind(s.registry, Ids(batch), ScratchTables(c, batch)).bound;
    var s1 := AfterBind(s, bound, batch);
    BatchStepsKeepInv(c, s1, batch, bound.bindings, |batch|);
    var s' := BatchSteps(c, s1, batch, bound.bindings, |batch|).value;
    forall k | 0 <= k < |batch|
      ensures ReadsOwnLatents(c, s', batch[k], bound.bindings[k])
    {
      ServedReads(c, s', batch[k], bound.bindings[k]);
    }
    forall k, a | 0 <= k < |batch| && ScratchClear(c, batch[k]) && InPlace(c, batch[k], a)
      ensures SameCell(s.memory, s'.memory, a)
    {
      BatchInPlaceKept(c, s1, batch, bound.bindings, |batch|, k, a);
    }
  }

  lemma EventCorrect(c: Config, s: System, e: Event)
    requires Inv(c, s) && Admissible(c, s, e)
    ensures Correct(c, s, e) && Inv(c, Next(c, s, e).value)
  {
    hide RowTrusted;
    match e
    case Finish(ids) => FinishKeepsInv(c, s, ids);
    case GoCold(ids) => GoColdKeepsInv(c, s, ids);
    case Overwrite(cells) => OverwriteKeepsInv(c, s, cells);
    case DecodeBatch(batch) => BatchCorrect(c, s, batch);
  }

  ghost predicate AdmissibleRun(c: Config, s: System, events: seq<Event>)
    decreases |events|
  {
    events != [] ==>
      && Admissible(c, s, events[0])
      && (Next(c, s, events[0]).Some? ==> AdmissibleRun(c, Next(c, s, events[0]).value, events[1..]))
  }

  ghost predicate CorrectRun(c: Config, s: System, events: seq<Event>)
    decreases |events|
  {
    events != [] ==> Correct(c, s, events[0]) && CorrectRun(c, Next(c, s, events[0]).value, events[1..])
  }

  /**
    From a trusted state, over every admissible run: no event fails, every decode step reads the
    latents its top-k entries name, and every state reached is trusted again.
   */
  lemma {:induction false} EveryRunReadsTheRightLatents(c: Config, s: System, events: seq<Event>)
    requires Inv(c, s) && AdmissibleRun(c, s, events)
    ensures CorrectRun(c, s, events)
    decreases |events|
  {
    hide Inv;
    if events != [] {
      EventCorrect(c, s, events[0]);
      EveryRunReadsTheRightLatents(c, Next(c, s, events[0]).value, events[1..]);
    }
  }
}
