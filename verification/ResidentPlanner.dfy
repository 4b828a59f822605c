/**
  One planning step of the sorted-shard resident latent cache.

  A request keeps a residency: which scratch slot holds the latent of which token.  A step is
  given the tokens selected now, split into shards; it keeps the slots of tokens that are already
  resident, hands the slots of unselected residents to the missing tokens, and grows the scratch
  densely when those run out.
 */
module ResidentPlanner {
  import opened SortedSets

  /** Token position -> scratch slot. */
  type Residency = map<nat, nat>

  datatype Plan =
    | Planned(resident: Residency, misses: seq<nat>, missSlots: seq<nat>)
    | NotDense
    | BeyondCapacity(slot: nat)

  // ----- The step as functions of its inputs

  function Flatten(shards: seq<seq<nat>>): seq<nat> {
    if shards == [] then [] else Flatten(shards[..|shards| - 1]) + shards[|shards| - 1]
  }

  function Members(s: seq<nat>): set<nat> {
    set t | t in s
  }

  /** The check the step makes on entry: it looks at the set of slots only. */
  predicate SlotSetDense(resident: Residency) {
    var occupied := resident.Values;
    && (forall i :: i in occupied ==> i < |occupied|)
    && (forall i: nat :: 0 <= i < |occupied| ==> i in occupied)
  }

  /** Residents of one shard that are not selected now, smallest token first. */
  function ShardVictims(resident: Residency, current: set<nat>, shardCount: nat, shard: nat): seq<nat>
    requires shardCount > 0
  {
    Ascending(set t | t in resident.Keys && t % shardCount == shard && t !in current)
  }

  /** The victims of shards `0..upTo`, in shard order. */
  function Victims(resident: Residency, current: set<nat>, shardCount: nat, upTo: nat): (r: seq<nat>)
    requires upTo <= shardCount
    ensures forall t :: t in r ==> t in resident && t !in current
  {
    if upTo == 0 then []
    else Victims(resident, current, shardCount, upTo - 1) + ShardVictims(resident, current, shardCount, upTo - 1)
  }

  function SlotsOf(resident: Residency, tokens: seq<nat>): seq<nat>
    requires forall t :: t in tokens ==> t in resident
  {
    seq(|tokens|, i requires 0 <= i < |tokens| => resident[tokens[i]])
  }

  /** Slot of the `k`-th miss: a freed slot while there is one, then the next unused slot. */
  function NewSlot(free: seq<nat>, occupied: nat, k: nat): nat {
    if k < |free| then free[k] else occupied + k - |free|
  }

  function NewSlots(free: seq<nat>, occupied: nat, count: nat): seq<nat> {
    seq(count, k requires 0 <= k < count => NewSlot(free, occupied, k))
  }

  function Misses(tokens: seq<nat>, resident: Residency): seq<nat> {
    if tokens == [] then []
    else
      var last := tokens[|tokens| - 1];
      Misses(tokens[..|tokens| - 1], resident) + if last in resident then [] else [last]
  }

  /** The dictionary built by assigning `slots[k]` to `tokens[k]` in order. */
  function Assigned(tokens: seq<nat>, slots: seq<nat>): Residency
    requires |tokens| == |slots|
  {
    if tokens == [] then map[]
    else
      var k := |tokens| - 1;
      Assigned(tokens[..k], slots[..k])[tokens[k] := slots[k]]
  }

  function Replaced(resident: Residency, misses: seq<nat>, missSlots: seq<nat>): Residency
    requires |misses| == |missSlots|
  {
    (map t | t in resident && resident[t] !in missSlots :: resident[t]) + Assigned(misses, missSlots)
  }

  function FreeSlots(shards: seq<seq<nat>>, resident: Residency): seq<nat> {
    SlotsOf(resident, Victims(resident, Members(Flatten(shards)), |shards|, |shards|))
  }

  /** The plan for these slots, or the first slot that does not fit. */
  function WithinCapacity(resident: Residency, misses: seq<nat>, slots: seq<nat>, capacity: nat): Plan
    requires |misses| == |slots|
  {
    if k :| 0 <= k < |slots| && slots[k] >= capacity && forall j :: 0 <= j < k ==> slots[j] < capacity
    then BeyondCapacity(slots[k])
    else Planned(Replaced(resident, misses, slots), misses, slots)
  }

  function ReferencePlan(shards: seq<seq<nat>>, resident: Residency, capacity: nat): Plan {
    if !SlotSetDense(resident) then NotDense
    else
      var misses := Misses(Flatten(shards), resident);
      WithinCapacity(resident, misses, NewSlots(FreeSlots(shards, resident), |resident.Values|, |misses|), capacity)
  }

  // ----- What a residency must be, and what a step keeps

  /** Different tokens sit in different slots, and the slots are exactly `0..|resident|`. */
  ghost predicate Dense(resident: Residency) {
    && (forall t :: t in resident ==> resident[t] < |resident|)
    && (forall t, u :: t in resident && u in resident && resident[t] == resident[u] ==> t == u)
  }

  lemma {:induction false} InjectiveValues(resident: Residency)
    requires forall t, u :: t in resident && u in resident && resident[t] == resident[u] ==> t == u
    ensures |resident.Values| == |resident|
    decreases |resident|
  {
    if resident.Keys == {} {
      assert resident.Values == {};
    } else {
      var t :| t in resident.Keys;
      var rest := resident - {t};
      InjectiveValues(rest);
      assert resident.Keys == rest.Keys + {t};
      assert resident.Values == rest.Values + {resident[t]};
    }
  }

  /** A dense residency passes the entry check, so `NotDense` cannot be reported for it. */
  lemma DensePassesCheck(resident: Residency)
    requires Dense(resident)
    ensures SlotSetDense(resident) && |resident.Values| == |resident|
  {
    InjectiveValues(resident);
    FullRange(resident.Values, |resident|);
  }

  lemma {:induction false} ValuesAtMost(m: Residency)
    ensures |m.Values| <= |m|
    decreases |m|
  {
    if t :| t in m {
      var rest := m - {t};
      ValuesAtMost(rest);
      assert m.Keys == rest.Keys + {t};
      forall v | v in m.Values
        ensures v in rest.Values + {m[t]}
      {
        var u :| u in m && m[u] == v;
        assert u == t || rest[u] == v;
      }
      SubsetSize(m.Values, rest.Values + {m[t]});
    } else {
      assert m.Values == {};
    }
  }

  /** What the entry check leaves open: it accepts exactly the dense residencies once no two tokens share a slot. */
  lemma CheckNeedsDistinctSlots(resident: Residency)
    ensures Dense(resident) <==> SlotSetDense(resident) && |resident.Values| == |resident|
  {
    if Dense(resident) {
      DensePassesCheck(resident);
    }
    if SlotSetDense(resident) && |resident.Values| == |resident| {
      assert forall t :: t in resident ==> resident[t] in resident.Values;
      forall t, u | t in resident && u in resident && resident[t] == resident[u]
        ensures t == u
      {
        if t != u {
          SharedSlotShrinks(resident, t, u);
        }
      }
    }
  }

  lemma SharedSlotShrinks(resident: Residency, t: nat, u: nat)
    requires t in resident && u in resident && t != u && resident[t] == resident[u]
    ensures |resident.Values| < |resident|
  {
    var rest := resident - {t};
    ValuesAtMost(rest);
    assert resident.Keys == rest.Keys + {t};
    forall v | v in resident.Values
      ensures v in rest.Values
    {
      var w :| w in resident && resident[w] == v;
      assert if w == t then rest[u] == v else rest[w] == v;
    }
    SubsetSize(resident.Values, rest.Values);
  }

  /** Two tokens in one slot pass the entry check. */
  lemma SharedSlotPassesCheck()
    ensures SlotSetDense(map[1 := 0, 2 := 0]) && !Dense(map[1 := 0, 2 := 0])
  {
    var shared: Residency := map[1 := 0, 2 := 0];
    assert shared[1] == 0 && shared[2] == 0;
    assert shared.Values == {0};
  }

  /** The victims are exactly the unselected residents, each once. */
  lemma {:induction false} VictimsEnumerate(resident: Residency, current: set<nat>, shardCount: nat, upTo: nat)
    requires 0 < shardCount && upTo <= shardCount
    ensures var v := Victims(resident, current, shardCount, upTo);
            && NoDuplicates(v)
            && (forall t :: t in v <==> t in resident && t !in current && t % shardCount < upTo)
  {
    if upTo > 0 {
      VictimsEnumerate(resident, current, shardCount, upTo - 1);
      var before := Victims(resident, current, shardCount, upTo - 1);
      var here := ShardVictims(resident, current, shardCount, upTo - 1);
      NoDuplicatesConcat(before, here);
      assert forall t :: t in before + here <==> t in before || t in here;
    }
  }

  lemma {:induction false} MissesEnumerate(tokens: seq<nat>, resident: Residency)
    requires NoDuplicates(tokens)
    ensures var m := Misses(tokens, resident);
            && NoDuplicates(m)
            && (forall t :: t in m <==> t in tokens && t !in resident)
  {
    hide NoDuplicates;
    SplitLast(tokens);
    if tokens != [] {
      var most, last := tokens[..|tokens| - 1], tokens[|tokens| - 1];
      MissesEnumerate(most, resident);
      OneMore(Misses(most, resident), last);
      assert Misses(most, resident) + [] == Misses(most, resident);
    }
  }

  lemma SplitLast(tokens: seq<nat>)
    requires NoDuplicates(tokens)
    ensures NoDuplicates<nat>([])
    ensures tokens != [] ==>
              var most, last := tokens[..|tokens| - 1], tokens[|tokens| - 1];
              NoDuplicates(most) && last !in most && forall t :: t in tokens <==> t in most || t == last
  {
    if tokens != [] {
      assert tokens == tokens[..|tokens| - 1] + [tokens[|tokens| - 1]];
    }
  }

  lemma OneMore(s: seq<nat>, t: nat)
    requires NoDuplicates(s)
    ensures t !in s ==> NoDuplicates(s + [t])
  {
  }

  lemma {:induction false} AssignedLooksUp(tokens: seq<nat>, slots: seq<nat>)
    requires |tokens| == |slots| && NoDuplicates(tokens)
    ensures Assigned(tokens, slots).Keys == Members(tokens)
    ensures forall k :: 0 <= k < |tokens| ==> Assigned(tokens, slots)[tokens[k]] == slots[k]
  {
    if tokens != [] {
      var k := |tokens| - 1;
      AssignedLooksUp(tokens[..k], slots[..k]);
      assert tokens == tokens[..k] + [tokens[k]];
    }
  }

  function Min(a: nat, b: nat): nat { if a < b then a else b }
  function Max(a: nat, b: nat): nat { if a < b then b else a }

  /** The situation of a step once victims and misses are known. */
  ghost predicate Refill(resident: Residency, victims: seq<nat>, misses: seq<nat>, slots: seq<nat>) {
    && Dense(resident)
    && NoDuplicates(victims) && NoDuplicates(misses)
    && (forall t :: t in victims ==> t in resident)
    && (forall t :: t in misses ==> t !in resident)
    && slots == NewSlots(SlotsOf(resident, victims), |resident|, |misses|)
  }

  lemma RefillSlots(resident: Residency, victims: seq<nat>, misses: seq<nat>, slots: seq<nat>)
    requires Refill(resident, victims, misses, slots)
    ensures NoDuplicates(slots) && |slots| == |misses|
    ensures forall k :: 0 <= k < |slots| ==> slots[k] < |resident| - Min(|misses|, |victims|) + |misses|
    ensures forall t :: t in resident ==> (resident[t] in slots <==> t in victims[..Min(|misses|, |victims|)])
  {
    var c := Min(|misses|, |victims|);
    assert forall k :: 0 <= k < c ==> slots[k] == resident[victims[k]];
    assert forall k :: c <= k < |slots| ==> slots[k] >= |resident|;
    forall t | t in resident
      ensures resident[t] in slots <==> t in victims[..c]
    {
      if t in victims[..c] {
        var k :| 0 <= k < c && victims[..c][k] == t;
        assert slots[k] == resident[t];
      }
      if resident[t] in slots {
        var k :| 0 <= k < |slots| && slots[k] == resident[t];
        assert victims[..c][k] == t;
      }
    }
  }

  /** Contents of the replaced residency, in terms of the set of residents whose slot is taken. */
  lemma ReplacedContents(resident: Residency, misses: seq<nat>, slots: seq<nat>, evicted: set<nat>)
    requires |misses| == |slots| && NoDuplicates(misses)
    requires forall t :: t in misses ==> t !in resident
    requires evicted <= resident.Keys
    requires forall t :: t in resident ==> (resident[t] in slots <==> t in evicted)
    ensures var after := Replaced(resident, misses, slots);
            && after.Keys == resident.Keys - evicted + Members(misses)
            && (forall t :: t in resident && t !in evicted ==> after[t] == resident[t])
            && (forall k :: 0 <= k < |misses| ==> after[misses[k]] == slots[k])
  {
    AssignedLooksUp(misses, slots);
    var after := Replaced(resident, misses, slots);
    forall t
      ensures t in after <==> t in resident.Keys - evicted + Members(misses)
    {
    }
  }

  lemma ReplacedSize(resident: Residency, misses: seq<nat>, slots: seq<nat>, evicted: set<nat>)
    requires |misses| == |slots| && NoDuplicates(misses)
    requires forall t :: t in misses ==> t !in resident
    requires evicted <= resident.Keys
    requires Replaced(resident, misses, slots).Keys == resident.Keys - evicted + Members(misses)
    ensures |Replaced(resident, misses, slots)| == |resident| - |evicted| + |misses|
  {
    NoDuplicatesCount(misses);
    var kept := resident.Keys - evicted;
    assert kept !! Members(misses);
    assert |kept + Members(misses)| == |kept| + |Members(misses)|;
    assert |kept| == |resident.Keys| - |evicted|;
  }

  /** Filling freed and fresh slots keeps the residency dense. */
  lemma RefillKeepsDense(resident: Residency, victims: seq<nat>, misses: seq<nat>, slots: seq<nat>)
    requires Refill(resident, victims, misses, slots)
    ensures |misses| == |slots|
    ensures RefillOutcome(resident, Members(victims[..Min(|misses|, |victims|)]), misses, slots,
                          Replaced(resident, misses, slots))
    ensures |Members(victims[..Min(|misses|, |victims|)])| == Min(|misses|, |victims|)
  {
    var c := Min(|misses|, |victims|);
    var evicted := Members(victims[..c]);
    RefillSlots(resident, victims, misses, slots);
    NoDuplicatesCount(victims[..c]);
    OutcomeFromSlots(resident, evicted, misses, slots);
  }

  ghost predicate RefillOutcome(resident: Residency, evicted: set<nat>, misses: seq<nat>, slots: seq<nat>,
                                after: Residency)
  {
    && |misses| == |slots|
    && Dense(after)
    && |after| == |resident| - |evicted| + |misses|
    && after.Keys == resident.Keys - evicted + Members(misses)
    && (forall t :: t in resident && t !in evicted ==> after[t] == resident[t] && after[t] !in slots)
    && (forall k :: 0 <= k < |misses| ==> after[misses[k]] == slots[k])
  }

  lemma OutcomeFromSlots(resident: Residency, evicted: set<nat>, misses: seq<nat>, slots: seq<nat>)
    requires Dense(resident)
    requires NoDuplicates(misses) && NoDuplicates(slots) && |slots| == |misses| >= |evicted|
    requires evicted <= resident.Keys
    requires forall t :: t in misses ==> t !in resident
    requires forall k :: 0 <= k < |slots| ==> slots[k] < |resident| - |evicted| + |misses|
    requires forall t :: t in resident ==> (resident[t] in slots <==> t in evicted)
    ensures RefillOutcome(resident, evicted, misses, slots, Replaced(resident, misses, slots))
  {
    var after := Replaced(resident, misses, slots);
    ReplacedContents(resident, misses, slots, evicted);
    ReplacedSize(resident, misses, slots, evicted);
    forall t | t in after && t !in misses
      ensures t in resident && t !in evicted
    {
      assert t in resident.Keys - evicted + Members(misses);
    }
    forall k | 0 <= k < |misses|
      ensures misses[k] in after
    {
      assert misses[k] in Members(misses);
    }
    DenseFromParts(resident, after, misses, slots);
  }

  lemma DenseFromParts(resident: Residency, after: Residency, misses: seq<nat>, slots: seq<nat>)
    requires Dense(resident) && |resident| <= |after|
    requires |misses| == |slots| && NoDuplicates(slots)
    requires forall k :: 0 <= k < |slots| ==> slots[k] < |after|
    requires forall k :: 0 <= k < |misses| ==> misses[k] in after && after[misses[k]] == slots[k]
    requires forall t :: t in after && t !in misses ==> t in resident && after[t] == resident[t] && after[t] !in slots
    ensures Dense(after)
  {
    forall t, u | t in after && u in after && after[t] == after[u]
      ensures t == u
    {
      if t in misses {
        var k :| 0 <= k < |misses| && misses[k] == t;
        assert after[u] in slots;
        var j :| 0 <= j < |misses| && misses[j] == u;
        assert slots[k] == slots[j];
      }
    }
  }

  // ----- The step against its declarative specification

  /** What planning `current` on top of `before` must achieve, whatever the sharding. */
  ghost predicate StepOutcome(before: Residency, current: set<nat>, plan: Plan) {
    && plan.Planned?
    && Dense(plan.resident)
    && |plan.resident| == Max(|before|, |current|)
    && current <= plan.resident.Keys
    // exactly the selected non-residents are loaded, each once, into the slot they are mapped to
    && NoDuplicates(plan.misses) && |plan.missSlots| == |plan.misses|
    && Members(plan.misses) == current - before.Keys
    && (forall k :: 0 <= k < |plan.misses| ==>
          plan.misses[k] in plan.resident && plan.resident[plan.misses[k]] == plan.missSlots[k])
    // every other token stays where it was, in a slot that is not written
    && (forall t :: t in plan.resident && t !in plan.misses ==>
          t in before && plan.resident[t] == before[t] && plan.resident[t] !in plan.missSlots)
    // only unselected residents are evicted, and no more than the misses need
    && before.Keys - plan.resident.Keys <= before.Keys - current
    && |before.Keys - plan.resident.Keys| == Min(|current - before.Keys|, |before.Keys - current|)
  }

  lemma StepInputs(shards: seq<seq<nat>>, resident: Residency)
    requires Dense(resident)
    requires |shards| > 0 && NoDuplicates(Flatten(shards))
    ensures var current := Members(Flatten(shards));
            var victims := Victims(resident, current, |shards|, |shards|);
            var misses := Misses(Flatten(shards), resident);
            && Refill(resident, victims, misses, NewSlots(SlotsOf(resident, victims), |resident|, |misses|))
            && Members(misses) == current - resident.Keys && |misses| == |current - resident.Keys|
            && Members(victims) == resident.Keys - current && |victims| == |resident.Keys - current|
  {
    hide Flatten, Victims, Misses, Dense, NoDuplicates, NewSlots, SlotsOf, Members;
    var current := Members(Flatten(shards));
    var victims := Victims(resident, current, |shards|, |shards|);
    var misses := Misses(Flatten(shards), resident);
    VictimsEnumerate(resident, current, |shards|, |shards|);
    MissesEnumerate(Flatten(shards), resident);
    MemberOf(Flatten(shards));
    Enumeration(victims, resident.Keys - current);
    Enumeration(misses, current - resident.Keys);
  }

  lemma MemberOf(s: seq<nat>)
    ensures forall t :: t in Members(s) <==> t in s
  {
  }

  lemma Enumeration(s: seq<nat>, whole: set<nat>)
    requires NoDuplicates(s) && forall t :: t in s <==> t in whole
    ensures Members(s) == whole && |s| == |whole|
  {
    NoDuplicatesCount(s);
  }

  /** `|hits| + |misses|` against `|hits| + |victims|`. */
  lemma SelectedSizes(resident: Residency, current: set<nat>)
    ensures |current - resident.Keys| - |resident.Keys - current| == |current| - |resident|
  {
    var hits := current * resident.Keys;
    assert current == hits + (current - resident.Keys);
    assert resident.Keys == hits + (resident.Keys - current);
  }

  lemma OutcomeFromRefill(resident: Residency, current: set<nat>, evicted: set<nat>, misses: seq<nat>,
                          slots: seq<nat>, after: Residency)
    requires RefillOutcome(resident, evicted, misses, slots, after) && NoDuplicates(misses)
    requires Members(misses) == current - resident.Keys
    requires evicted <= resident.Keys - current
    requires |evicted| == Min(|current - resident.Keys|, |resident.Keys - current|)
    ensures StepOutcome(resident, current, Planned(after, misses, slots))
  {
    hide NoDuplicates, Dense, Members;
    OutcomeSets(resident, current, evicted, misses, slots, after);
    OutcomeTokens(resident, evicted, misses, slots, after);
  }

  lemma OutcomeSets(resident: Residency, current: set<nat>, evicted: set<nat>, misses: seq<nat>,
                    slots: seq<nat>, after: Residency)
    requires RefillOutcome(resident, evicted, misses, slots, after) && NoDuplicates(misses)
    requires Members(misses) == current - resident.Keys
    requires evicted <= resident.Keys - current
    requires |evicted| == Min(|current - resident.Keys|, |resident.Keys - current|)
    ensures current <= after.Keys && resident.Keys - after.Keys == evicted
    ensures |after| == Max(|resident|, |current|)
  {
    hide NoDuplicates, Dense, Members;
    OutcomeKeys(resident.Keys, current, evicted, after.Keys);
    MissCount(misses, current - resident.Keys);
    SelectedSizes(resident, current);
  }

  lemma MissCount(misses: seq<nat>, missing: set<nat>)
    requires NoDuplicates(misses) && Members(misses) == missing
    ensures |misses| == |missing|
  {
    NoDuplicatesCount(misses);
  }

  lemma OutcomeKeys(before: set<nat>, current: set<nat>, evicted: set<nat>, after: set<nat>)
    requires evicted <= before - current && after == before - evicted + (current - before)
    ensures before - after == evicted && current <= after
  {
  }

  lemma OutcomeTokens(resident: Residency, evicted: set<nat>, misses: seq<nat>, slots: seq<nat>, after: Residency)
    requires RefillOutcome(resident, evicted, misses, slots, after)
    ensures forall k :: 0 <= k < |misses| ==> misses[k] in after && after[misses[k]] == slots[k]
    ensures forall t :: t in after && t !in misses ==> t in resident && after[t] == resident[t] && after[t] !in slots
  {
    hide Dense, Members;
    MemberOf(misses);
    assert forall t :: t in after.Keys <==> t in resident.Keys - evicted + Members(misses);
  }

  /** Where the slots of a step lie: reused ones below the old size, fresh ones counting up from it. */
  lemma SlotPositions(resident: Residency, victims: seq<nat>, misses: seq<nat>, slots: seq<nat>)
    requires Refill(resident, victims, misses, slots)
    ensures |slots| == |misses|
    ensures forall k :: 0 <= k < |slots| ==>
              if k < |victims| then slots[k] < |resident| else slots[k] == |resident| + k - |victims|
  {
  }

  lemma CapacityDecides(shards: seq<seq<nat>>, resident: Residency, capacity: nat)
    requires Dense(resident) && |resident| <= capacity
    requires |shards| > 0 && NoDuplicates(Flatten(shards))
    ensures var misses := Misses(Flatten(shards), resident);
            var slots := NewSlots(FreeSlots(shards, resident), |resident|, |misses|);
            ReferencePlan(shards, resident, capacity)
            == if |Members(Flatten(shards))| <= capacity then Planned(Replaced(resident, misses, slots), misses, slots)
               else BeyondCapacity(capacity)
  {
    var current := Members(Flatten(shards));
    var victims := Victims(resident, current, |shards|, |shards|);
    var misses := Misses(Flatten(shards), resident);
    var slots := NewSlots(SlotsOf(resident, victims), |resident|, |misses|);
    DensePassesCheck(resident);
    StepInputs(shards, resident);
    SelectedSizes(resident, current);
    SlotPositions(resident, victims, misses, slots);
    GrowthDecides(resident, misses, slots, |victims|, capacity);
  }

  lemma GrowthDecides(resident: Residency, misses: seq<nat>, slots: seq<nat>, reused: nat, capacity: nat)
    requires |misses| == |slots| && |resident| <= capacity
    requires forall k :: 0 <= k < |slots| ==>
               if k < reused then slots[k] < |resident| else slots[k] == |resident| + k - reused
    ensures WithinCapacity(resident, misses, slots, capacity)
            == if |resident| + |misses| - reused <= capacity then Planned(Replaced(resident, misses, slots), misses, slots)
               else BeyondCapacity(capacity)
  {
    if |resident| + |misses| - reused > capacity {
      assert slots[reused + capacity - |resident|] == capacity;
    }
  }

  lemma StepFromInputs(resident: Residency, current: set<nat>, victims: seq<nat>, misses: seq<nat>, slots: seq<nat>)
    requires Refill(resident, victims, misses, slots)
    requires Members(misses) == current - resident.Keys && |misses| == |current - resident.Keys|
    requires Members(victims) == resident.Keys - current && |victims| == |resident.Keys - current|
    ensures |misses| == |slots|
    ensures StepOutcome(resident, current, Planned(Replaced(resident, misses, slots), misses, slots))
  {
    RefillKeepsDense(resident, victims, misses, slots);
    var evicted := Members(victims[..Min(|misses|, |victims|)]);
    assert evicted <= Members(victims);
    OutcomeFromRefill(resident, current, evicted, misses, slots, Replaced(resident, misses, slots));
  }

  /** A dense residency within capacity is planned exactly when the selection fits the capacity. */
  lemma PlanMeetsSpecification(shards: seq<seq<nat>>, resident: Residency, capacity: nat)
    requires Dense(resident) && |resident| <= capacity
    requires |shards| > 0 && NoDuplicates(Flatten(shards))
    ensures var current := Members(Flatten(shards));
            var plan := ReferencePlan(shards, resident, capacity);
            if |current| <= capacity then StepOutcome(resident, current, plan) else plan == BeyondCapacity(capacity)
  {
    var current := Members(Flatten(shards));
    var victims := Victims(resident, current, |shards|, |shards|);
    var misses := Misses(Flatten(shards), resident);
    CapacityDecides(shards, resident, capacity);
    StepInputs(shards, resident);
    StepFromInputs(resident, current, victims, misses, NewSlots(SlotsOf(resident, victims), |resident|, |misses|));
  }

  lemma OutcomesAgree(resident: Residency, current: set<nat>, p: Plan, q: Plan)
    requires StepOutcome(resident, current, p) && StepOutcome(resident, current, q)
    ensures Members(p.misses) == Members(q.misses) && |p.misses| == |q.misses|
    ensures |p.resident| == |q.resident|
    ensures forall t :: t in current && t in resident ==>
              t in p.resident && t in q.resident && p.resident[t] == q.resident[t] == resident[t]
  {
    NoDuplicatesCount(p.misses);
    NoDuplicatesCount(q.misses);
    assert forall t :: t in p.misses ==> t in Members(p.misses);
    assert forall t :: t in q.misses ==> t in Members(q.misses);
  }

  /** The sharding changes which slot a miss gets, never what is loaded, what stays or how large the scratch is. */
  lemma ShardingIsInvisible(a: seq<seq<nat>>, b: seq<seq<nat>>, resident: Residency, capacity: nat)
    requires Dense(resident) && |resident| <= capacity
    requires |a| > 0 && NoDuplicates(Flatten(a))
    requires |b| > 0 && NoDuplicates(Flatten(b))
    requires Members(Flatten(a)) == Members(Flatten(b))
    ensures var p, q := ReferencePlan(a, resident, capacity), ReferencePlan(b, resident, capacity);
            && (p.Planned? <==> q.Planned?)
            && (p.Planned? ==>
                  && Members(p.misses) == Members(q.misses) && |p.misses| == |q.misses|
                  && |p.resident| == |q.resident|
                  && (forall t :: t in Members(Flatten(a)) && t in resident ==>
                        && t in p.resident && t in q.resident
                        && p.resident[t] == q.resident[t] == resident[t]))
  {
    PlanMeetsSpecification(a, resident, capacity);
    PlanMeetsSpecification(b, resident, capacity);
    if |Members(Flatten(a))| <= capacity {
      OutcomesAgree(resident, Members(Flatten(a)), ReferencePlan(a, resident, capacity),
                    ReferencePlan(b, resident, capacity));
    }
  }
}
