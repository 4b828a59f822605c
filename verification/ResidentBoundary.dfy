/**
  Runs of one request within one generation, without any guard on the boundaries: a boundary shared
  by all rows that never moves back keeps scratch slots and in-place positions apart.
 */
module ResidentBoundary {
  import opened SortedSets
  import opened ResidentPlanner
  import opened ResidentRequest

  /** The top-k rows of one step. */
  datatype TopK = TopK(source: seq<int>, boundaries: seq<int>)

  ghost predicate StepShape(capacity: nat, step: TopK) {
    WellShaped(step.source, step.boundaries) && |step.source| <= capacity
  }

  ghost function PlanOf(shardCount: nat, capacity: nat, before: Residency, step: TopK): Plan
    requires shardCount > 0 && StepShape(capacity, step)
  {
    ReferencePlan(Sharded(Selected(step.source, step.boundaries), shardCount), before, capacity)
  }

  /** All rows share the boundary `b`. */
  ghost predicate Shared(step: TopK, b: nat) {
    forall r :: 0 <= r < |step.boundaries| ==> step.boundaries[r] == b
  }

  /** Different tokens keep different entries, whether rewritten or left in place. */
  ghost predicate OneToOne(step: TopK, resident: Residency) {
    && WellShaped(step.source, step.boundaries)
    && (forall p :: 0 <= p < |step.source| && Offloaded(step.source, step.boundaries, p) ==>
          step.source[p] as nat in resident)
    && (forall p, q :: 0 <= p < |step.source| && 0 <= q < |step.source|
                       && step.source[p] >= 0 && step.source[q] >= 0 && step.source[p] != step.source[q] ==>
          Remapped(step.source, step.boundaries, resident)[p] != Remapped(step.source, step.boundaries, resident)[q])
  }

  lemma SelectedBelow(step: TopK, b: nat)
    requires WellShaped(step.source, step.boundaries) && Shared(step, b)
    ensures |Selected(step.source, step.boundaries)| <= b
  {
    SelectedMembers(step.source, step.boundaries, |step.source|);
    BoundedCardinality(Selected(step.source, step.boundaries), b);
  }

  lemma RemapSeparates(step: TopK, b: nat, resident: Residency)
    requires WellShaped(step.source, step.boundaries) && Shared(step, b)
    requires Dense(resident) && |resident| <= b && Selected(step.source, step.boundaries) <= resident.Keys
    ensures OneToOne(step, resident)
  {
    SelectedMembers(step.source, step.boundaries, |step.source|);
    forall p | 0 <= p < |step.source| && Offloaded(step.source, step.boundaries, p)
      ensures step.source[p] as nat in resident
    {
      assert step.source[p] as nat in Selected(step.source, step.boundaries);
    }
    EntriesSeparate(step, b, resident);
  }

  lemma EntriesSeparate(step: TopK, b: nat, resident: Residency)
    requires WellShaped(step.source, step.boundaries) && Shared(step, b)
    requires Dense(resident) && |resident| <= b
    requires forall p :: 0 <= p < |step.source| && Offloaded(step.source, step.boundaries, p) ==>
               step.source[p] as nat in resident
    ensures OneToOne(step, resident)
  {
    var after := Remapped(step.source, step.boundaries, resident);
    forall p | 0 <= p < |step.source| && step.source[p] >= 0
      ensures if step.source[p] < b then step.source[p] as nat in resident && after[p] == resident[step.source[p] as nat] < b
              else after[p] == step.source[p]
    {
      assert Offloaded(step.source, step.boundaries, p) <==> step.source[p] < b;
    }
  }

  /** Every step of the run is planned, with slots below its boundary and a one-to-one remap. */
  ghost predicate SeparatedRun(shardCount: nat, capacity: nat, before: Residency, steps: seq<TopK>, bounds: seq<nat>)
    requires shardCount > 0 && |steps| == |bounds|
    requires forall k :: 0 <= k < |steps| ==> StepShape(capacity, steps[k])
    decreases |steps|
  {
    steps != [] ==>
      var plan := PlanOf(shardCount, capacity, before, steps[0]);
      && plan.Planned?
      && (forall t :: t in plan.resident ==> plan.resident[t] < bounds[0])
      && OneToOne(steps[0], plan.resident)
      && SeparatedRun(shardCount, capacity, plan.resident, steps[1..], bounds[1..])
  }

  lemma StepBelowBoundary(shardCount: nat, capacity: nat, before: Residency, step: TopK, b: nat)
    requires shardCount > 0 && StepShape(capacity, step) && Shared(step, b)
    requires Dense(before) && |before| <= capacity && |before| <= b
    ensures var plan := PlanOf(shardCount, capacity, before, step);
            && plan.Planned? && Dense(plan.resident) && |plan.resident| <= capacity && |plan.resident| <= b
            && OneToOne(step, plan.resident)
  {
    hide OneToOne;
    var selected := Selected(step.source, step.boundaries);
    SelectedMembers(step.source, step.boundaries, |step.source|);
    SelectedBelow(step, b);
    ShardedPartition(selected, shardCount);
    PlanMeetsSpecification(Sharded(selected, shardCount), before, capacity);
    RemapSeparates(step, b, PlanOf(shardCount, capacity, before, step).resident);
  }

  /** Slots stay below a shared boundary that never moves back, over any number of steps. */
  lemma {:induction false} SlotsStayBelowBoundary(shardCount: nat, capacity: nat, before: Residency,
                                                  steps: seq<TopK>, bounds: seq<nat>, floor: nat)
    requires shardCount > 0 && |steps| == |bounds|
    requires forall k :: 0 <= k < |steps| ==> StepShape(capacity, steps[k]) && Shared(steps[k], bounds[k])
    requires forall k :: 0 <= k < |bounds| ==> floor <= bounds[k]
    requires forall j, k :: 0 <= j < k < |bounds| ==> bounds[j] <= bounds[k]
    requires Dense(before) && |before| <= capacity && |before| <= floor
    ensures SeparatedRun(shardCount, capacity, before, steps, bounds)
    decreases |steps|
  {
    hide OneToOne, PlanOf;
    if steps != [] {
      StepBelowBoundary(shardCount, capacity, before, steps[0], bounds[0]);
      SlotsStayBelowBoundary(shardCount, capacity, PlanOf(shardCount, capacity, before, steps[0]).resident,
                             steps[1..], bounds[1..], bounds[0]);
    }
  }

  /** One row kept in place and one row offloaded: the boundaries 0 and 4096 of a 4096-slot scratch. */
  function MixedRows(): TopK {
    TopK(seq(2 * INDEX_TOPK, p => if p < INDEX_TOPK then 0 else 7), [0, 4096])
  }

  lemma MixedSelection()
    ensures StepShape(4096, MixedRows())
    ensures Selected(MixedRows().source, MixedRows().boundaries) == {7}
    ensures Offloaded(MixedRows().source, MixedRows().boundaries, INDEX_TOPK)
    ensures !Offloaded(MixedRows().source, MixedRows().boundaries, 0)
  {
    hide SelectedUpTo;
    var step := MixedRows();
    SelectedMembers(step.source, step.boundaries, |step.source|);
    assert Offloaded(step.source, step.boundaries, INDEX_TOPK) && step.source[INDEX_TOPK] == 7;
    assert forall p :: 0 <= p < |step.source| && Offloaded(step.source, step.boundaries, p) ==> step.source[p] == 7;
  }

  lemma OneTokenPlan(t: nat, plan: Plan)
    requires StepOutcome(map[], {t}, plan)
    ensures plan.resident == map[t := 0]
  {
    assert t in plan.resident;
    forall u | u in plan.resident
      ensures u == t
    {
      if u in plan.misses {
        assert u in Members(plan.misses);
      }
    }
  }

  /**
    The shared boundary is needed: with rows on boundaries 0 and 4096, token 7 moves to slot 0,
    which an entry of the other row still reads as position 0.
   */
  lemma MixedBoundariesCollide()
    ensures StepShape(4096, MixedRows())
    ensures var plan := PlanOf(1, 4096, map[], MixedRows());
            plan.Planned? && plan.resident == map[7 := 0] && !OneToOne(MixedRows(), plan.resident)
  {
    hide Selected, Sharded;
    var step := MixedRows();
    MixedSelection();
    ShardedPartition({7}, 1);
    PlanMeetsSpecification(Sharded({7}, 1), map[], 4096);
    OneTokenPlan(7, PlanOf(1, 4096, map[], step));
    MixedRemapCollides();
  }

  lemma MixedRemapCollides()
    ensures !OneToOne(MixedRows(), map[7 := 0])
  {
    hide Selected;
    var step := MixedRows();
    MixedSelection();
    assert step.source[0] == 0 && step.source[INDEX_TOPK] == 7;
    var resident: Residency := map[7 := 0];
    assert forall p :: 0 <= p < |step.source| && Offloaded(step.source, step.boundaries, p) ==> step.source[p] == 7;
    var after := Remapped(step.source, step.boundaries, resident);
    assert after[0] == after[INDEX_TOPK];
  }

  // ----- Exactly which steps are rewritten one-to-one, whatever was resident before

  /** A position left in place within the scratch is only ever offloaded as itself. */
  ghost predicate EntriesApart(capacity: nat, step: TopK)
    requires WellShaped(step.source, step.boundaries)
  {
    forall p, q :: 0 <= p < |step.source| && 0 <= q < |step.source| ==>
      (CoveredInPlace(capacity, step, p) && Offloaded(step.source, step.boundaries, q) ==> step.source[q] == step.source[p])
  }

  ghost predicate CoveredInPlace(capacity: nat, step: TopK, p: nat)
    requires WellShaped(step.source, step.boundaries) && p < |step.source|
  {
    !Offloaded(step.source, step.boundaries, p) && 0 <= step.source[p] < capacity
  }

  lemma ApartSeparates(capacity: nat, step: TopK, resident: Residency)
    requires WellShaped(step.source, step.boundaries) && EntriesApart(capacity, step)
    requires Dense(resident) && |resident| <= capacity && Selected(step.source, step.boundaries) <= resident.Keys
    ensures OneToOne(step, resident)
  {
    hide SelectedUpTo;
    SelectedMembers(step.source, step.boundaries, |step.source|);
    forall p | 0 <= p < |step.source| && Offloaded(step.source, step.boundaries, p)
      ensures step.source[p] as nat in resident
    {
      assert step.source[p] as nat in Selected(step.source, step.boundaries);
    }
    var after := Remapped(step.source, step.boundaries, resident);
    forall p, q | 0 <= p < |step.source| && 0 <= q < |step.source|
                  && step.source[p] >= 0 && step.source[q] >= 0 && step.source[p] != step.source[q]
      ensures after[p] != after[q]
    {
      assert CoveredInPlace(capacity, step, p) || CoveredInPlace(capacity, step, q) || after[p] != after[q];
    }
  }

  /** Tokens `v + 1 .. v + n` in slots `0 .. n - 1`. */
  ghost function Fillers(v: nat, n: nat): Residency {
    if n == 0 then map[] else Fillers(v, n - 1)[v + n := n - 1]
  }

  lemma {:induction false} FillersAre(v: nat, n: nat)
    ensures |Fillers(v, n)| == n
    ensures forall t :: t in Fillers(v, n) <==> v < t <= v + n
    ensures forall t :: t in Fillers(v, n) ==> Fillers(v, n)[t] == t - v - 1
  {
    if n > 0 {
      FillersAre(v, n - 1);
    }
  }

  /** A residency that holds `v` in slot `u`. */
  lemma HeldAt(v: nat, u: nat) returns (before: Residency)
    ensures Dense(before) && |before| == u + 1 && v in before && before[v] == u
  {
    FillersAre(v, u);
    before := Fillers(v, u)[v := u];
  }

  lemma PlannedStep(shardCount: nat, capacity: nat, before: Residency, step: TopK)
    requires shardCount > 0 && StepShape(capacity, step) && Dense(before) && |before| <= capacity
    ensures StepOutcome(before, Selected(step.source, step.boundaries), PlanOf(shardCount, capacity, before, step))
    ensures |PlanOf(shardCount, capacity, before, step).resident| <= capacity
  {
    hide Dense, SelectedUpTo;
    var selected := Selected(step.source, step.boundaries);
    SelectedMembers(step.source, step.boundaries, |step.source|);
    ShardedPartition(selected, shardCount);
    PlanMeetsSpecification(Sharded(selected, shardCount), before, capacity);
  }

  /** A hit stays in its slot, so it can meet any position left in place within the scratch. */
  lemma HitMeetsPosition(shardCount: nat, capacity: nat, step: TopK, p: nat, q: nat) returns (before: Residency)
    requires shardCount > 0 && StepShape(capacity, step) && p < |step.source| && q < |step.source|
    requires CoveredInPlace(capacity, step, p) && Offloaded(step.source, step.boundaries, q)
    requires step.source[q] != step.source[p]
    ensures Dense(before) && |before| <= capacity
    ensures PlanOf(shardCount, capacity, before, step).Planned?
    ensures !OneToOne(step, PlanOf(shardCount, capacity, before, step).resident)
  {
    var u: nat, v: nat := step.source[p], step.source[q];
    before := HeldAt(v, u);
    PlannedStep(shardCount, capacity, before, step);
    SelectedMembers(step.source, step.boundaries, |step.source|);
    HitStays(before, Selected(step.source, step.boundaries), PlanOf(shardCount, capacity, before, step), v);
    SameEntry(step, PlanOf(shardCount, capacity, before, step).resident, p, q);
  }

  lemma HitStays(before: Residency, current: set<nat>, plan: Plan, t: nat)
    requires StepOutcome(before, current, plan) && t in current && t in before
    ensures plan.Planned? && t in plan.resident && plan.resident[t] == before[t]
  {
    hide Dense, NoDuplicates;
    assert t !in Members(plan.misses);
  }

  lemma SameEntry(step: TopK, resident: Residency, p: nat, q: nat)
    requires WellShaped(step.source, step.boundaries) && p < |step.source| && q < |step.source|
    requires step.source[p] >= 0 && step.source[q] >= 0 && step.source[p] != step.source[q]
    requires !Offloaded(step.source, step.boundaries, p) && Offloaded(step.source, step.boundaries, q)
    requires step.source[q] as nat in resident && resident[step.source[q] as nat] == step.source[p]
    ensures !OneToOne(step, resident)
  {
  }

  /**
    A step is rewritten one-to-one after every history if and only if no position left in place
    within the scratch stands beside another token that is offloaded.
   */
  lemma RewriteSeparatesExactly(shardCount: nat, capacity: nat, step: TopK)
    requires shardCount > 0 && StepShape(capacity, step)
    ensures (forall before :: Dense(before) && |before| <= capacity ==>
               var plan := PlanOf(shardCount, capacity, before, step); plan.Planned? && OneToOne(step, plan.resident))
            <==> EntriesApart(capacity, step)
  {
    hide Dense, OneToOne, PlanOf, CoveredInPlace, SelectedUpTo;
    if EntriesApart(capacity, step) {
      forall before | Dense(before) && |before| <= capacity
        ensures PlanOf(shardCount, capacity, before, step).Planned?
        ensures OneToOne(step, PlanOf(shardCount, capacity, before, step).resident)
      {
        PlannedStep(shardCount, capacity, before, step);
        ApartSeparates(capacity, step, PlanOf(shardCount, capacity, before, step).resident);
      }
    } else {
      var p, q :| 0 <= p < |step.source| && 0 <= q < |step.source| && CoveredInPlace(capacity, step, p)
                  && Offloaded(step.source, step.boundaries, q) && step.source[q] != step.source[p];
      var before := HitMeetsPosition(shardCount, capacity, step, p, q);
    }
  }
}
