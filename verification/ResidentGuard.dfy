/**
  The guard on scratch capacity, and exactly when entries left in place keep their cells.

  The guard looks at the boundaries of a request one by one.  That keeps the scratch off every row
  that is offloaded, but not off a row that is left in place beside one that is.
 */
module ResidentGuard {
  import opened Options
  import opened SortedSets
  import opened Arithmetic
  import opened ResidentPlanner
  import opened ResidentRequest
  import opened ResidentRegistry
  import opened ResidentMemory
  import opened ResidentSystem
  import opened ResidentBoundary

  // ----- The guard

  datatype GuardFault =
    | BadWidth
    | ShapesDiffer
    | NoReservation
    | TooSmall(request: nat)
    | WouldAlias(request: nat)

  /** The boundaries of the rows of one request. */
  function BoundariesOf(boundaries: seq<int>, requests: seq<int>, request: int): seq<int>
    requires |boundaries| == |requests|
  {
    if boundaries == [] then []
    else
      var k := |boundaries| - 1;
      BoundariesOf(boundaries[..k], requests[..k], request) + if requests[k] == request then [boundaries[k]] else []
  }

  function NonZero(boundaries: seq<int>): nat {
    if boundaries == [] then 0
    else NonZero(boundaries[..|boundaries| - 1]) + if boundaries[|boundaries| - 1] != 0 then 1 else 0
  }

  function RequestFault(boundaries: seq<int>, width: int, capacity: int, request: nat): Option<GuardFault> {
    if NonZero(boundaries) * width > capacity then Some(TooSmall(request))
    else if exists r :: 0 <= r < |boundaries| && boundaries[r] != 0 && boundaries[r] < capacity then Some(WouldAlias(request))
    else None
  }

  function FaultOf(boundaries: seq<int>, requests: seq<int>, width: int, capacity: int, request: nat): Option<GuardFault>
    requires |boundaries| == |requests|
  {
    RequestFault(BoundariesOf(boundaries, requests, request), width, capacity, request)
  }

  function RequestIds(requests: seq<int>): set<nat> {
    set q: nat | q in requests
  }

  /** No request below `upTo` has a fault. */
  ghost predicate PassesBelow(boundaries: seq<int>, requests: seq<int>, width: int, capacity: int, upTo: nat)
    requires |boundaries| == |requests|
  {
    forall q :: q in RequestIds(requests) && q < upTo ==> FaultOf(boundaries, requests, width, capacity, q) == None
  }

  /** The fault of the first request in order that has one, if any has. */
  method FirstFault(boundaries: seq<int>, requests: seq<int>, width: int, capacity: int)
    returns (fault: Option<GuardFault>)
    requires |boundaries| == |requests|
    ensures fault == None ==>
              forall q :: q in RequestIds(requests) ==> FaultOf(boundaries, requests, width, capacity, q) == None
    ensures fault.Some? ==>
              exists q :: q in RequestIds(requests) && fault == FaultOf(boundaries, requests, width, capacity, q)
                          && PassesBelow(boundaries, requests, width, capacity, q)
  {
    hide FaultOf, RequestIds;
    var order := Ascending(RequestIds(requests));
    for k := 0 to |order|
      invariant forall j :: 0 <= j < k ==> FaultOf(boundaries, requests, width, capacity, order[j]) == None
    {
      assert order[k] in order;
      fault := FaultOf(boundaries, requests, width, capacity, order[k]);
      if fault.Some? {
        forall p | p in RequestIds(requests) && p < order[k]
          ensures FaultOf(boundaries, requests, width, capacity, p) == None
        {
          assert p in order;
        }
        return;
      }
    }
    fault := None;
  }

  /** The checks of the arguments in turn, then those of every request. */
  method ValidateScratchCapacity(boundaries: seq<int>, requests: seq<int>, width: int, reserved: Option<int>)
    returns (fault: Option<GuardFault>)
    ensures width <= 0 ==> fault == Some(BadWidth)
    ensures width > 0 && |boundaries| != |requests| ==> fault == Some(ShapesDiffer)
    ensures width > 0 && |boundaries| == |requests| && (reserved.None? || reserved.value < width) ==>
              fault == Some(NoReservation)
    ensures width > 0 && |boundaries| == |requests| && reserved.Some? && reserved.value >= width ==>
              if fault.Some? then
                exists q :: q in RequestIds(requests) && fault == FaultOf(boundaries, requests, width, reserved.value, q)
                            && PassesBelow(boundaries, requests, width, reserved.value, q)
              else
                forall q :: q in RequestIds(requests) ==> FaultOf(boundaries, requests, width, reserved.value, q) == None
  {
    hide FaultOf, RequestIds;
    if width <= 0 {
      return Some(BadWidth);
    }
    if |boundaries| != |requests| {
      return Some(ShapesDiffer);
    }
    if reserved.None? || reserved.value < width {
      return Some(NoReservation);
    }
    fault := FirstFault(boundaries, requests, width, reserved.value);
  }

  lemma {:induction false} BoundaryListed(boundaries: seq<int>, requests: seq<int>, r: nat) returns (k: nat)
    requires |boundaries| == |requests| && r < |boundaries|
    ensures k < |BoundariesOf(boundaries, requests, requests[r])|
    ensures BoundariesOf(boundaries, requests, requests[r])[k] == boundaries[r]
  {
    var last := |boundaries| - 1;
    if r == last {
      k := |BoundariesOf(boundaries[..last], requests[..last], requests[r])|;
    } else {
      k := BoundaryListed(boundaries[..last], requests[..last], r);
    }
  }

  /** What a request that passes may look like: every row is left in place entirely or clears the scratch. */
  lemma PassingRows(boundaries: seq<int>, requests: seq<int>, width: int, capacity: int, request: nat)
    requires |boundaries| == |requests| && FaultOf(boundaries, requests, width, capacity, request) == None
    ensures forall r :: 0 <= r < |boundaries| && requests[r] == request ==> boundaries[r] == 0 || capacity <= boundaries[r]
  {
    hide BoundariesOf, NonZero;
    forall r | 0 <= r < |boundaries| && requests[r] == request
      ensures boundaries[r] == 0 || capacity <= boundaries[r]
    {
      var k := BoundaryListed(boundaries, requests, r);
    }
  }

  // ----- Exactly when entries left in place keep their cells

  lemma UpperBound(s: set<nat>) returns (b: nat)
    ensures forall t :: t in s ==> t < b
  {
    if s == {} {
      b := 0;
    } else {
      var order := Ascending(s);
      assert forall t :: t in s ==> t in order;
      b := order[|order| - 1] + 1;
    }
  }

  /** Multiples of `n`, one step apart, from `b * n` on. */
  ghost function Rung(b: nat, n: nat, k: nat): nat {
    if k == 0 then b * n else Rung(b, n, k - 1) + n
  }

  lemma {:induction false} RungIs(b: nat, n: nat, k: nat)
    requires n > 0
    ensures Rung(b, n, k) % n == 0 && b <= Rung(b, n, k)
  {
    if k == 0 {
      EuclideanUnique(b, 0, n);
      Scale(1, n, b);
    } else {
      RungIs(b, n, k - 1);
      NextMultiple(Rung(b, n, k - 1), n);
    }
  }

  lemma NextMultiple(x: nat, n: nat)
    requires n > 0 && x % n == 0
    ensures (x + n) % n == 0
  {
    var q := x / n;
    assert x == q * n;
    assert x + n == (q + 1) * n;
    EuclideanUnique(q + 1, 0, n);
  }

  lemma {:induction false} RungsClimb(b: nat, n: nat, j: nat, k: nat)
    requires n > 0 && j < k
    ensures Rung(b, n, j) < Rung(b, n, k)
  {
    if j + 1 < k {
      RungsClimb(b, n, j, k - 1);
    }
  }

  /** Rungs `1 .. k` in slots `0 .. k - 1`. */
  ghost function Ladder(b: nat, n: nat, k: nat): Residency {
    if k == 0 then map[] else Ladder(b, n, k - 1)[Rung(b, n, k) := k - 1]
  }

  lemma {:induction false} LadderIs(b: nat, n: nat, k: nat)
    requires n > 0
    ensures |Ladder(b, n, k)| == k && Dense(Ladder(b, n, k))
    ensures forall t :: t in Ladder(b, n, k) ==>
              t % n == 0 && b <= t && Rung(b, n, 0) < t <= Rung(b, n, k)
  {
    hide Rung, Dense;
    if k == 0 {
      NothingResident();
    } else {
      LadderIs(b, n, k - 1);
      RungsClimb(b, n, k - 1, k);
      RungsClimb(b, n, 0, k);
      RungIs(b, n, k);
      OneMoreResident(Ladder(b, n, k - 1), Rung(b, n, k));
    }
  }

  lemma NothingResident()
    ensures Dense(map[])
  {
  }

  lemma OneMoreResident(resident: Residency, t: nat)
    requires Dense(resident) && t !in resident
    ensures Dense(resident[t := |resident|])
  {
  }

  /** A residency without selected tokens whose first victim sits in slot `u`. */
  lemma VictimAt(selected: set<nat>, n: nat, u: nat) returns (before: Residency, w: nat)
    requires n > 0
    ensures Dense(before) && |before| == u + 1 && before.Keys !! selected
    ensures w in before && before[w] == u && w % n == 0 && forall t :: t in before ==> w <= t
  {
    hide Rung, Ladder;
    var b := UpperBound(selected);
    LadderIs(b, n, u);
    RungIs(b, n, 0);
    w := Rung(b, n, 0);
    before := Ladder(b, n, u)[w := u];
    OneMoreResident(Ladder(b, n, u), w);
  }

  lemma LeastFirst(s: set<nat>, w: nat)
    requires w in s && forall t :: t in s ==> w <= t
    ensures Ascending(s) != [] && Ascending(s)[0] == w
  {
    var order := Ascending(s);
    var i :| 0 <= i < |order| && order[i] == w;
    assert order[0] in order;
  }

  lemma {:induction false} FirstVictim(resident: Residency, current: set<nat>, n: nat, w: nat, upTo: nat)
    requires 0 < upTo <= n && w in resident && w !in current && w % n == 0 && forall t :: t in resident ==> w <= t
    ensures Victims(resident, current, n, upTo) != [] && Victims(resident, current, n, upTo)[0] == w
  {
    if upTo == 1 {
      LeastFirst((set t | t in resident.Keys && t % n == 0 && t !in current), w);
      assert Victims(resident, current, n, 0) == [];
    } else {
      FirstVictim(resident, current, n, w, upTo - 1);
    }
  }

  /** After some history the first miss goes to slot `u`. */
  lemma MissAt(selected: set<nat>, n: nat, capacity: nat, u: nat) returns (before: Residency)
    requires n > 0 && u < capacity && selected != {} && |selected| <= capacity
    ensures Dense(before) && |before| <= capacity
    ensures var plan := ReferencePlan(Sharded(selected, n), before, capacity);
            plan.Planned? && plan.missSlots != [] && plan.missSlots[0] == u
  {
    hide Victims, Dense, ReferencePlan, Sharded, Flatten, Misses, StepOutcome, FreeSlots, Ascending;
    var w;
    before, w := VictimAt(selected, n, u);
    var shards := Sharded(selected, n);
    ShardedShape(selected, n);
    ShardedPartition(selected, n);
    PlanMeetsSpecification(shards, before, capacity);
    OutcomePlanned(before, selected, ReferencePlan(shards, before, capacity));
    FirstVictim(before, selected, n, w, n);
    FirstFree(shards, before, w);
    SomethingMissed(shards, before, selected);
    FirstSlot(shards, before, capacity);
  }

  lemma ShardedShape(selected: set<nat>, n: nat)
    requires n > 0
    ensures |Sharded(selected, n)| == n
  {
  }

  lemma FirstFree(shards: seq<seq<nat>>, resident: Residency, w: nat)
    requires w in resident
    requires var v := Victims(resident, Members(Flatten(shards)), |shards|, |shards|); v != [] && v[0] == w
    ensures FreeSlots(shards, resident) != [] && FreeSlots(shards, resident)[0] == resident[w]
  {
    hide Victims, Flatten;
  }

  lemma SomethingMissed(shards: seq<seq<nat>>, resident: Residency, selected: set<nat>)
    requires NoDuplicates(Flatten(shards)) && Members(Flatten(shards)) == selected
    requires selected != {} && resident.Keys !! selected
    ensures Misses(Flatten(shards), resident) != []
  {
    hide Flatten, Misses;
    MissesEnumerate(Flatten(shards), resident);
    var t :| t in selected;
    assert t in Flatten(shards);
    assert t in Misses(Flatten(shards), resident);
  }

  lemma FirstSlot(shards: seq<seq<nat>>, resident: Residency, capacity: nat)
    requires ReferencePlan(shards, resident, capacity).Planned?
    requires Misses(Flatten(shards), resident) != [] && FreeSlots(shards, resident) != []
    ensures var plan := ReferencePlan(shards, resident, capacity);
            plan.missSlots != [] && plan.missSlots[0] == FreeSlots(shards, resident)[0]
  {
  }

  /** No history makes the load of this step write to a cell that an entry left in place reads. */
  ghost predicate KeepsInPlace(c: Config, d: Decode)
    requires Eligible(c, d)
  {
    forall s: System, b: Binding, a: nat :: History(c, s, b) && InPlace(c, d, a) ==>
      RequestStep(c, s, d, b).Some? && SameCell(s.memory, RequestStep(c, s, d, b).value.memory, a)
  }

  /** Any state whose row can be trusted to be dense. */
  ghost predicate History(c: Config, s: System, b: Binding) {
    && Valid(s.registry) && b.row < |s.rows|
    && Dense(TrustedResidency(s, b)) && |TrustedResidency(s, b)| <= c.capacity
  }

  /** An entry left in place within the scratch loses its cell after some history, once anything is selected. */
  lemma InPlaceLost(c: Config, d: Decode, p: nat)
    requires Eligible(c, d) && Selected(d.source, d.boundaries) != {} && p < |d.source|
    requires !Offloaded(d.source, d.boundaries, p) && 0 <= d.source[p] < c.capacity
    ensures !KeepsInPlace(c, d)
  {
    hide Selected, StepOutcome, ReferencePlan, SlotAddress, Load, ScratchTable, Dense, Sharded, Disturbed;
    var u: nat := d.source[p];
    SelectedFits(c, d);
    var before := MissAt(Selected(d.source, d.boundaries), c.shardCount, c.capacity, u);
    var s := System(Fresh(1), [Row(0, before)], map[], {});
    var b := Binding(0, 0);
    assert TrustedResidency(s, b) == before && History(c, s, b);
    var plan := RequestPlan(c, s, d, b);
    var a := SlotAddress(c, ScratchTable(c, d), u);
    SlotIsPosition(c, d, u);
    assert InPlaceAt(c, d, p, a) && InPlace(c, d, a);
    LoadAdds(c, map[], d.id, ScratchTable(c, d), plan.misses, plan.missSlots, 0);
    assert a in RequestStep(c, s, d, b).value.memory;
  }

  lemma SelectedFits(c: Config, d: Decode)
    requires Eligible(c, d)
    ensures |Selected(d.source, d.boundaries)| <= c.capacity
  {
    hide SelectedUpTo;
    SelectedMembers(d.source, d.boundaries, |d.source|);
  }

  lemma SlotIsPosition(c: Config, d: Decode, u: nat)
    requires Eligible(c, d) && u < c.capacity
    ensures u / c.blockSize < |d.table| && SlotAddress(c, ScratchTable(c, d), u) == Address(d.table, c.blockSize, u)
  {
    hide Address, ScratchTable, Backs, ScratchBlocks, WellShaped;
    SlotHasBlock(c, ScratchTable(c, d), u);
    LongerTable(ScratchTable(c, d), d.table, c.blockSize, u);
  }

  lemma {:induction false} LoadAdds(c: Config, memory: Memory, q: string, table: seq<nat>, tokens: seq<nat>, slots: seq<nat>, k: nat)
    requires Backs(c, table) && |tokens| == |slots| && k < |slots|
    requires forall i :: 0 <= i < |slots| ==> slots[i] < c.capacity
    ensures SlotAddress(c, table, slots[k]) in Load(c, memory, q, table, tokens, slots)
  {
    hide SlotAddress, Backs;
    var last := |tokens| - 1;
    if k < last {
      LoadAdds(c, memory, q, table, tokens[..last], slots[..last], k);
    }
  }

  /**
    Entries left in place keep their cells after every history if and only if nothing is selected or
    none of them reads a position within the scratch.
   */
  lemma InPlaceKeptExactly(c: Config, d: Decode)
    requires Eligible(c, d)
    ensures KeepsInPlace(c, d) <==> ScratchClear(c, d)
  {
    hide Selected, RequestStep, InPlace, Dense, SameCell, Valid, TrustedResidency;
    if ScratchClear(c, d) {
      forall s: System, b: Binding, a: nat | History(c, s, b) && InPlace(c, d, a)
        ensures RequestStep(c, s, d, b).Some? && SameCell(s.memory, RequestStep(c, s, d, b).value.memory, a)
      {
        StepFromHistory(c, s, d, b);
        OwnInPlaceKept(c, s, d, b, a);
      }
    } else {
      var p :| 0 <= p < |d.source| && !Offloaded(d.source, d.boundaries, p) && 0 <= d.source[p] < c.capacity;
      InPlaceLost(c, d, p);
    }
  }

  lemma StepFromHistory(c: Config, s: System, d: Decode, b: Binding)
    requires Eligible(c, d) && History(c, s, b)
    ensures RequestStep(c, s, d, b).Some?
  {
    hide StepOutcome, RequestPlan, TrustedResidency, Dense, Selected;
    PlannedFromDense(c, s, d, b);
    OutcomePlanned(TrustedResidency(s, b), Selected(d.source, d.boundaries), RequestPlan(c, s, d, b));
  }

  // ----- What the guard leaves open

  ghost predicate PassesGuard(c: Config, d: Decode) {
    RequestFault(d.boundaries, INDEX_TOPK, c.capacity, 0) == None
  }

  /** Rows of boundary zero with an entry within the scratch. */
  ghost predicate KeptRowCovered(c: Config, d: Decode)
    requires WellShaped(d.source, d.boundaries)
  {
    exists p :: 0 <= p < |d.source| && d.boundaries[p / INDEX_TOPK] == 0 && 0 <= d.source[p] < c.capacity
  }

  /**
    For a request that passes the guard, entries left in place keep their cells after every history
    if and only if nothing is selected or no row of boundary zero reads within the scratch.
   */
  lemma GuardedExactly(c: Config, d: Decode)
    requires Eligible(c, d) && PassesGuard(c, d)
    ensures KeepsInPlace(c, d) <==> Selected(d.source, d.boundaries) == {} || !KeptRowCovered(c, d)
  {
    hide Selected, KeepsInPlace, NonZero;
    InPlaceKeptExactly(c, d);
    forall p | 0 <= p < |d.source| && 0 <= d.source[p] < c.capacity
      ensures !Offloaded(d.source, d.boundaries, p) <==> d.boundaries[p / INDEX_TOPK] == 0
    {
      var r := p / INDEX_TOPK;
      assert 0 <= r < |d.boundaries|;
    }
  }

  const MIXED: Config := Config(4096, 4096, 1)

  /** The mixed rows as a request on one block of 4096 positions. */
  ghost function MixedRequest(): Decode {
    Decode("a", [0], MixedRows().source, MixedRows().boundaries)
  }

  lemma MixedIsGuarded()
    ensures Eligible(MIXED, MixedRequest()) && PassesGuard(MIXED, MixedRequest())
    ensures FaultOf(MixedRequest().boundaries, [0, 0], INDEX_TOPK, MIXED.capacity, 0) == None
  {
    var boundaries, requests: seq<int> := MixedRequest().boundaries, [0, 0];
    assert boundaries == [0, 4096] && boundaries[..1] == [0] && requests[..1] == [0];
    assert NonZero(boundaries) == 1 by {
      assert NonZero([0]) == 0;
    }
    assert boundaries[..1][..0] == [] && requests[..1][..0] == [];
    assert BoundariesOf([0], [0], 0) == [0];
    assert BoundariesOf(boundaries, requests, 0) == [0, 4096];
  }

  /** They pass the guard, and from an empty scratch token 7 is loaded into the cell that position 0 is read from. */
  lemma MixedLoadOverwritesPosition(s: System, b: Binding)
    requires Valid(s.registry) && b.row < |s.rows| && TrustedResidency(s, b) == map[]
    ensures Eligible(MIXED, MixedRequest()) && PassesGuard(MIXED, MixedRequest())
    ensures var a := Address([0], MIXED.blockSize, 0);
            && InPlace(MIXED, MixedRequest(), a) && RequestStep(MIXED, s, MixedRequest(), b).Some?
            && a in RequestStep(MIXED, s, MixedRequest(), b).value.memory
            && RequestStep(MIXED, s, MixedRequest(), b).value.memory[a] == Latent("a", 7)
  {
    hide PassesGuard, Selected, ReferencePlan, Load, Disturbed, StepOutcome, SlotAddress, ScratchTable, MixedRows, Eligible, Valid;
    var d := MixedRequest();
    MixedIsGuarded();
    MixedInPlace();
    NothingResident();
    PlannedFromDense(MIXED, s, d, b);
    MixedSelection();
    var plan := RequestPlan(MIXED, s, d, b);
    SevenInSlotZero(plan);
    MissSlotsFit(MIXED, map[], {7}, plan);
    LoadWrites(MIXED, s.memory, d.id, ScratchTable(MIXED, d), plan.misses, plan.missSlots, 0);
    SlotIsPosition(MIXED, d, 0);
  }

  lemma MixedInPlace()
    ensures Eligible(MIXED, MixedRequest()) && InPlace(MIXED, MixedRequest(), Address([0], MIXED.blockSize, 0))
  {
    hide Selected, PassesGuard;
    var d := MixedRequest();
    MixedSelection();
    assert d.source[0] == 0 && !Offloaded(d.source, d.boundaries, 0);
    assert InPlaceAt(MIXED, d, 0, Address([0], MIXED.blockSize, 0));
  }

  lemma SevenInSlotZero(plan: Plan)
    requires StepOutcome(map[], {7}, plan)
    ensures plan.Planned? && plan.misses == [7] && plan.missSlots == [0]
  {
    OneTokenPlan(7, plan);
    Enumeration(plan.misses, {7});
    assert plan.misses[0] in Members(plan.misses);
  }
}
