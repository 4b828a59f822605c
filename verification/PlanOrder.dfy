/**
  Which residents a step evicts, and which slot each miss gets.

  Shards are emptied in turn, smallest token first, and misses take the freed slots in that order
  before they take new ones.  Together with what every step achieves this leaves nothing open.
 */
module PlanOrder {
  import opened SortedSets
  import opened ResidentPlanner
  import opened ResidentRequest

  /** The order of eviction: by shard, then by token. */
  ghost predicate ShardBefore(n: nat, t: nat, u: nat)
    requires n > 0
  {
    t % n < u % n || (t % n == u % n && t < u)
  }

  ghost predicate Evicted(before: Residency, plan: Plan, t: nat)
    requires plan.Planned?
  {
    t in before && t !in plan.resident
  }

  /** Every evicted resident comes before every unselected one that is kept. */
  ghost predicate EvictsInOrder(n: nat, before: Residency, current: set<nat>, plan: Plan)
    requires n > 0 && plan.Planned?
  {
    forall t, u :: Evicted(before, plan, t) && u in before && u in plan.resident && u !in current ==> ShardBefore(n, t, u)
  }

  ghost predicate Takes(plan: Plan, i: nat, slot: nat)
    requires plan.Planned?
  {
    i < |plan.missSlots| && plan.missSlots[i] == slot
  }

  /** The slots of evicted residents are taken in their order. */
  ghost predicate RefillsInOrder(n: nat, before: Residency, plan: Plan)
    requires n > 0 && plan.Planned?
  {
    forall t, u, i: nat, j: nat :: Evicted(before, plan, t) && Evicted(before, plan, u) && ShardBefore(n, t, u) ==>
      (Takes(plan, i, before[t]) && Takes(plan, j, before[u]) ==> i < j)
  }

  /** New slots are taken last, in ascending order. */
  ghost predicate GrowsLast(before: Residency, plan: Plan)
    requires plan.Planned?
  {
    forall i, j :: 0 <= i < j < |plan.missSlots| && |before| <= plan.missSlots[i] ==> plan.missSlots[i] < plan.missSlots[j]
  }

  ghost predicate SlotsInOrder(n: nat, before: Residency, current: set<nat>, plan: Plan)
    requires n > 0
  {
    plan.Planned? && EvictsInOrder(n, before, current, plan) && RefillsInOrder(n, before, plan) && GrowsLast(before, plan)
  }

  // ----- Victims and misses in order

  ghost predicate InShardOrder(n: nat, s: seq<nat>)
    requires n > 0
  {
    forall i, j :: 0 <= i < j < |s| ==> ShardBefore(n, s[i], s[j])
  }

  lemma NextShardInOrder(n: nat, before: seq<nat>, here: seq<nat>, shard: nat)
    requires n > 0 && InShardOrder(n, before) && StrictlyAscending(here)
    requires forall t :: t in before ==> t % n < shard
    requires forall t :: t in here ==> t % n == shard
    ensures InShardOrder(n, before + here)
  {
    var all := before + here;
    forall i, j | 0 <= i < j < |all|
      ensures ShardBefore(n, all[i], all[j])
    {
      if i < |before| <= j {
        assert before[i] in before && here[j - |before|] in here;
      } else if |before| <= i {
        assert here[i - |before|] in here && here[j - |before|] in here;
      }
    }
  }

  lemma {:induction false} VictimsInOrder(resident: Residency, current: set<nat>, n: nat, upTo: nat)
    requires 0 < n && upTo <= n
    ensures InShardOrder(n, Victims(resident, current, n, upTo))
  {
    hide InShardOrder, NoDuplicates, Ascending;
    if upTo == 0 {
      NothingInOrder(n);
    } else {
      VictimsInOrder(resident, current, n, upTo - 1);
      VictimsEnumerate(resident, current, n, upTo - 1);
      NextShardInOrder(n, Victims(resident, current, n, upTo - 1), ShardVictims(resident, current, n, upTo - 1), upTo - 1);
    }
  }

  lemma NothingInOrder(n: nat)
    requires n > 0
    ensures InShardOrder(n, [])
  {
  }

  lemma {:induction false} ShardsInOrder(selected: set<nat>, n: nat, upTo: nat)
    requires 0 < n && upTo <= n
    ensures InShardOrder(n, Flatten(Sharded(selected, n)[..upTo]))
  {
    hide InShardOrder, NoDuplicates, Ascending, InShard;
    var shards := Sharded(selected, n);
    if upTo == 0 {
      NothingInOrder(n);
      assert shards[..0] == [];
    } else {
      ShardsInOrder(selected, n, upTo - 1);
      ShardedPrefix(selected, n, upTo - 1);
      ShardMembers(selected, n, upTo - 1);
      assert shards[..upTo][..upTo - 1] == shards[..upTo - 1];
      NextShardInOrder(n, Flatten(shards[..upTo - 1]), shards[upTo - 1], upTo - 1);
    }
  }

  lemma ShardMembers(selected: set<nat>, n: nat, shard: nat)
    requires shard < n
    ensures |Sharded(selected, n)| == n && StrictlyAscending(Sharded(selected, n)[shard])
    ensures forall t :: t in Sharded(selected, n)[shard] ==> t % n == shard
  {
    hide Ascending;
  }

  /** Misses keep the order in which the shards list them. */
  lemma {:induction false} MissesKeepOrder(tokens: seq<nat>, resident: Residency, i: nat, j: nat) returns (a: nat, b: nat)
    requires i < j < |Misses(tokens, resident)|
    ensures a < b < |tokens| && tokens[a] == Misses(tokens, resident)[i] && tokens[b] == Misses(tokens, resident)[j]
  {
    var most := tokens[..|tokens| - 1];
    var earlier := Misses(most, resident);
    if j < |earlier| {
      a, b := MissesKeepOrder(most, resident, i, j);
    } else {
      b := |tokens| - 1;
      a := MissListed(most, resident, i);
    }
  }

  lemma {:induction false} MissListed(tokens: seq<nat>, resident: Residency, i: nat) returns (a: nat)
    requires i < |Misses(tokens, resident)|
    ensures a < |tokens| && tokens[a] == Misses(tokens, resident)[i]
  {
    var most := tokens[..|tokens| - 1];
    if i < |Misses(most, resident)| {
      a := MissListed(most, resident, i);
    } else {
      a := |tokens| - 1;
    }
  }

  /** Misses of a sharded selection come by shard, then by token. */
  lemma ShardedMissesInOrder(selected: set<nat>, n: nat, resident: Residency)
    requires n > 0
    ensures InShardOrder(n, Misses(Flatten(Sharded(selected, n)), resident))
  {
    hide Misses, Flatten, Sharded;
    ShardsInOrder(selected, n, n);
    WholeSharded(selected, n);
    var tokens := Flatten(Sharded(selected, n));
    var misses := Misses(tokens, resident);
    forall i, j | 0 <= i < j < |misses|
      ensures ShardBefore(n, misses[i], misses[j])
    {
      var a, b := MissesKeepOrder(tokens, resident, i, j);
    }
  }

  lemma WholeSharded(selected: set<nat>, n: nat)
    requires n > 0
    ensures |Sharded(selected, n)| == n && Sharded(selected, n)[..n] == Sharded(selected, n)
  {
  }

  // ----- The step takes slots in order

  lemma RefillInOrder(n: nat, resident: Residency, current: set<nat>, victims: seq<nat>, misses: seq<nat>, slots: seq<nat>)
    requires n > 0 && Refill(resident, victims, misses, slots) && InShardOrder(n, victims)
    requires Members(victims) == resident.Keys - current && |misses| == |slots|
    ensures SlotsInOrder(n, resident, current, Planned(Replaced(resident, misses, slots), misses, slots))
  {
    hide EvictsInOrder, RefillsInOrder, GrowsLast, Refill, Replaced;
    FirstVictimsGo(n, resident, current, victims, misses, slots);
    FreedSlotsFirst(n, resident, victims, misses, slots);
    NewSlotsLast(resident, victims, misses, slots);
  }

  lemma FirstVictimsGo(n: nat, resident: Residency, current: set<nat>, victims: seq<nat>, misses: seq<nat>, slots: seq<nat>)
    requires n > 0 && Refill(resident, victims, misses, slots) && InShardOrder(n, victims)
    requires Members(victims) == resident.Keys - current && |misses| == |slots|
    ensures EvictsInOrder(n, resident, current, Planned(Replaced(resident, misses, slots), misses, slots))
  {
    hide Replaced, Members, NoDuplicates, NewSlots, ShardBefore, Dense;
    var plan := Planned(Replaced(resident, misses, slots), misses, slots);
    EvictedAre(resident, victims, misses, slots);
    MemberOf(victims);
    var c := Min(|misses|, |victims|);
    forall t, u | Evicted(resident, plan, t) && u in resident && u in plan.resident && u !in current
      ensures ShardBefore(n, t, u)
    {
      var i :| 0 <= i < c && victims[i] == t;
      assert u in Members(victims);
      var j :| 0 <= j < |victims| && victims[j] == u;
      assert j >= c;
    }
  }

  lemma FreedSlotsFirst(n: nat, resident: Residency, victims: seq<nat>, misses: seq<nat>, slots: seq<nat>)
    requires n > 0 && Refill(resident, victims, misses, slots) && InShardOrder(n, victims) && |misses| == |slots|
    ensures RefillsInOrder(n, resident, Planned(Replaced(resident, misses, slots), misses, slots))
  {
    hide Replaced, Members, NoDuplicates, NewSlots, ShardBefore, Dense, Refill;
    var plan := Planned(Replaced(resident, misses, slots), misses, slots);
    ReusedSlots(resident, victims, misses, slots);
    forall t, u, i: nat, j: nat | Evicted(resident, plan, t) && Evicted(resident, plan, u) && ShardBefore(n, t, u)
                        && Takes(plan, i, resident[t]) && Takes(plan, j, resident[u])
      ensures i < j
    {
      assert victims[i] == t && victims[j] == u;
      Antisymmetric(n, t, u);
    }
  }

  lemma NewSlotsLast(resident: Residency, victims: seq<nat>, misses: seq<nat>, slots: seq<nat>)
    requires Refill(resident, victims, misses, slots) && |misses| == |slots|
    ensures GrowsLast(resident, Planned(Replaced(resident, misses, slots), misses, slots))
  {
    hide Replaced, NewSlots, Refill;
    SlotPositions(resident, victims, misses, slots);
  }

  lemma Antisymmetric(n: nat, t: nat, u: nat)
    requires n > 0
    ensures !(ShardBefore(n, t, u) && ShardBefore(n, u, t)) && !ShardBefore(n, t, t)
    ensures t == u || ShardBefore(n, t, u) || ShardBefore(n, u, t)
  {
  }

  lemma EvictedAre(resident: Residency, victims: seq<nat>, misses: seq<nat>, slots: seq<nat>)
    requires Refill(resident, victims, misses, slots) && |misses| == |slots|
    ensures forall t :: t in resident ==>
              (t !in Replaced(resident, misses, slots) <==> t in victims[..Min(|misses|, |victims|)])
    ensures forall t :: t in victims[..Min(|misses|, |victims|)] <==> exists i :: 0 <= i < Min(|misses|, |victims|) && victims[i] == t
  {
    hide Replaced, NewSlots;
    RefillSlots(resident, victims, misses, slots);
    var evicted := Members(victims[..Min(|misses|, |victims|)]);
    ReplacedContents(resident, misses, slots, evicted);
    MemberOf(misses);
    forall t | t in resident
      ensures t !in Replaced(resident, misses, slots) <==> t in evicted
    {
      assert t in Replaced(resident, misses, slots).Keys <==> t in resident.Keys - evicted + Members(misses);
    }
  }

  lemma ReusedSlots(resident: Residency, victims: seq<nat>, misses: seq<nat>, slots: seq<nat>)
    requires Refill(resident, victims, misses, slots) && |misses| == |slots|
    ensures forall i, t :: 0 <= i < |slots| && t in resident && slots[i] == resident[t] ==>
              i < Min(|misses|, |victims|) && victims[i] == t
  {
    forall i, t | 0 <= i < |slots| && t in resident && slots[i] == resident[t]
      ensures i < Min(|misses|, |victims|) && victims[i] == t
    {
      if i < |victims| {
        assert slots[i] == resident[victims[i]] && victims[i] in victims;
      }
    }
  }

  /** Every step that succeeds evicts and refills in order. */
  lemma PlanInOrder(shards: seq<seq<nat>>, resident: Residency, capacity: nat)
    requires Dense(resident) && |resident| <= capacity
    requires |shards| > 0 && NoDuplicates(Flatten(shards)) && |Members(Flatten(shards))| <= capacity
    ensures SlotsInOrder(|shards|, resident, Members(Flatten(shards)), ReferencePlan(shards, resident, capacity))
  {
    hide Flatten, Victims, Misses, Dense, ReferencePlan, SlotsInOrder, Replaced;
    var current := Members(Flatten(shards));
    var victims := Victims(resident, current, |shards|, |shards|);
    var misses := Misses(Flatten(shards), resident);
    CapacityDecides(shards, resident, capacity);
    StepInputs(shards, resident);
    VictimsInOrder(resident, current, |shards|, |shards|);
    RefillInOrder(|shards|, resident, current, victims, misses, NewSlots(SlotsOf(resident, victims), |resident|, |misses|));
  }

  // ----- Nothing is left open

  lemma SameSizeDiffers(a: set<nat>, b: set<nat>, t: nat) returns (u: nat)
    requires |a| == |b| && t in a && t !in b
    ensures u in b && u !in a
  {
    if forall x :: x in b ==> x in a {
      SubsetSize(b, a - {t});
    }
    u :| u in b && u !in a;
  }

  lemma SameEvictions(n: nat, before: Residency, current: set<nat>, p: Plan, q: Plan)
    requires n > 0 && StepOutcome(before, current, p) && StepOutcome(before, current, q)
    requires EvictsInOrder(n, before, current, p) && EvictsInOrder(n, before, current, q)
    ensures before.Keys - p.resident.Keys == before.Keys - q.resident.Keys
  {
    NoneExtra(n, before, current, p, q);
    NoneExtra(n, before, current, q, p);
  }

  lemma NoneExtra(n: nat, before: Residency, current: set<nat>, p: Plan, q: Plan)
    requires n > 0 && StepOutcome(before, current, p) && StepOutcome(before, current, q)
    requires EvictsInOrder(n, before, current, p) && EvictsInOrder(n, before, current, q)
    ensures before.Keys - p.resident.Keys <= before.Keys - q.resident.Keys
  {
    hide Dense, NoDuplicates, Members, ShardBefore;
    var a, b := before.Keys - p.resident.Keys, before.Keys - q.resident.Keys;
    forall t | t in a
      ensures t in b
    {
      if t !in b {
        var u := SameSizeDiffers(a, b, t);
        assert Evicted(before, p, t) && Evicted(before, q, u);
        assert u in before.Keys - current && t in before.Keys - current;
        assert ShardBefore(n, t, u) && ShardBefore(n, u, t);
        Antisymmetric(n, t, u);
      }
    }
  }

  /** Sequences with the same members in the same relative order are the same. */
  lemma {:induction false} SameOrderSame(a: seq<nat>, b: seq<nat>)
    requires NoDuplicates(a) && NoDuplicates(b) && |a| == |b| && forall x :: x in a <==> x in b
    requires forall i, j, k, l :: 0 <= i < j < |a| && 0 <= k < |b| && 0 <= l < |b| && a[i] == b[k] && a[j] == b[l] ==> k < l
    ensures a == b
  {
    if a != [] {
      assert a[0] in b && b[0] in a;
      var k :| 0 <= k < |b| && b[k] == a[0];
      var j :| 0 <= j < |a| && a[j] == b[0];
      assert k == 0;
      Rest(a, b);
      SameOrderSame(a[1..], b[1..]);
      assert a == [a[0]] + a[1..] && b == [b[0]] + b[1..];
    }
  }

  lemma Rest(a: seq<nat>, b: seq<nat>)
    requires a != [] && b != [] && a[0] == b[0] && NoDuplicates(a) && NoDuplicates(b) && forall x :: x in a <==> x in b
    ensures NoDuplicates(a[1..]) && NoDuplicates(b[1..]) && forall x :: x in a[1..] <==> x in b[1..]
  {
    hide NoDuplicates;
    TailMembers(a);
    TailMembers(b);
  }

  lemma TailMembers(a: seq<nat>)
    requires a != [] && NoDuplicates(a)
    ensures NoDuplicates(a[1..]) && forall x :: x in a[1..] <==> x in a && x != a[0]
  {
    var rest := a[1..];
    assert a == [a[0]] + rest;
    assert forall i :: 0 <= i < |rest| ==> rest[i] == a[i + 1];
  }

  /** The miss slots of a step are the slots that no kept resident has. */
  lemma MissSlotMembers(before: Residency, current: set<nat>, p: Plan, q: Plan)
    requires StepOutcome(before, current, p) && StepOutcome(before, current, q)
    requires before.Keys - p.resident.Keys == before.Keys - q.resident.Keys
    ensures |p.missSlots| == |q.missSlots| && forall x :: x in p.missSlots ==> x in q.missSlots
  {
    hide NoDuplicates, Dense, Members, StepOutcome;
    SameCounts(before, current, p, q);
    KeptTheSame(before, current, p, q);
    forall x | x in p.missSlots
      ensures x in q.missSlots
    {
      var k :| 0 <= k < |p.missSlots| && p.missSlots[k] == x;
      MissSlotIn(before, current, p, k);
      var t := OccupantOf(q.resident, x);
      if t !in q.misses {
        OneOccupant(p.resident, t, p.misses[k]);
      }
      MissTakes(before, current, q, t);
    }
  }

  lemma MissSlotIn(before: Residency, current: set<nat>, p: Plan, k: nat)
    requires StepOutcome(before, current, p) && k < |p.missSlots|
    ensures |p.misses| == |p.missSlots| && p.misses[k] in p.resident && p.resident[p.misses[k]] == p.missSlots[k] < |p.resident|
  {
    hide NoDuplicates, Members;
  }

  lemma MissTakes(before: Residency, current: set<nat>, p: Plan, t: nat)
    requires StepOutcome(before, current, p) && t in p.misses
    ensures t in p.resident && p.resident[t] in p.missSlots
  {
    hide NoDuplicates, Members, Dense;
    var k :| 0 <= k < |p.misses| && p.misses[k] == t;
    assert p.missSlots[k] in p.missSlots;
  }

  lemma OneOccupant(resident: Residency, t: nat, u: nat)
    requires Dense(resident) && t in resident && u in resident && resident[t] == resident[u]
    ensures t == u
  {
  }

  /** Steps that evict the same keep the same where it was. */
  lemma KeptTheSame(before: Residency, current: set<nat>, p: Plan, q: Plan)
    requires StepOutcome(before, current, p) && StepOutcome(before, current, q)
    requires before.Keys - p.resident.Keys == before.Keys - q.resident.Keys
    ensures Dense(p.resident) && Dense(q.resident)
    ensures forall t :: t in q.resident && t !in q.misses ==> t in p.resident && p.resident[t] == q.resident[t]
  {
    hide NoDuplicates, Dense, Members;
    SameCounts(before, current, p, q);
    forall t | t in q.resident && t !in q.misses
      ensures t in p.resident && p.resident[t] == q.resident[t]
    {
      assert t in before.Keys && t !in before.Keys - q.resident.Keys;
    }
  }

  lemma SameCounts(before: Residency, current: set<nat>, p: Plan, q: Plan)
    requires StepOutcome(before, current, p) && StepOutcome(before, current, q)
    ensures p.Planned? && q.Planned?
    ensures |p.missSlots| == |q.missSlots| && |p.resident| == |q.resident|
    ensures forall t :: t in p.misses <==> t in q.misses
  {
    hide Dense, NoDuplicates, Members;
    MissCount(p.misses, current - before.Keys);
    MissCount(q.misses, current - before.Keys);
    MemberOf(p.misses);
    MemberOf(q.misses);
  }

  lemma OccupantOf(resident: Residency, slot: nat) returns (t: nat)
    requires Dense(resident) && slot < |resident|
    ensures t in resident && resident[t] == slot
  {
    DensePassesCheck(resident);
    assert slot in resident.Values;
    t :| t in resident && resident[t] == slot;
  }

  /** A slot of the old residency that a miss takes was the slot of an evicted resident. */
  lemma TakenFromEvicted(before: Residency, current: set<nat>, p: Plan, i: nat) returns (t: nat)
    requires StepOutcome(before, current, p) && Dense(before) && i < |p.missSlots| && p.missSlots[i] < |before|
    ensures Evicted(before, p, t) && before[t] == p.missSlots[i]
  {
    hide Dense, NoDuplicates;
    t := OccupantOf(before, p.missSlots[i]);
    assert t !in Members(p.misses);
    assert p.missSlots[i] in p.missSlots;
  }

  lemma MissSlotsDiffer(before: Residency, current: set<nat>, p: Plan)
    requires StepOutcome(before, current, p)
    ensures NoDuplicates(p.missSlots)
  {
    forall i, j | 0 <= i < j < |p.missSlots|
      ensures p.missSlots[i] != p.missSlots[j]
    {
      assert p.resident[p.misses[i]] == p.missSlots[i] && p.resident[p.misses[j]] == p.missSlots[j];
    }
  }

  lemma OrderCarries(n: nat, before: Residency, current: set<nat>, p: Plan, q: Plan, i: nat, j: nat, k: nat, l: nat)
    requires n > 0 && Dense(before) && StepOutcome(before, current, p) && StepOutcome(before, current, q)
    requires SlotsInOrder(n, before, current, p) && SlotsInOrder(n, before, current, q)
    requires i < j < |p.missSlots| && k < |q.missSlots| && l < |q.missSlots|
    requires p.missSlots[i] == q.missSlots[k] && p.missSlots[j] == q.missSlots[l] && p.missSlots[i] != p.missSlots[j]
    ensures k < l
  {
    hide StepOutcome, Dense, ShardBefore, EvictsInOrder;
    var x, y := p.missSlots[i], p.missSlots[j];
    if x < |before| && y < |before| {
      var t := TakenFromEvicted(before, current, p, i);
      var u := TakenFromEvicted(before, current, p, j);
      var t' := TakenFromEvicted(before, current, q, k);
      var u' := TakenFromEvicted(before, current, q, l);
      OneOccupant(before, t, t');
      OneOccupant(before, u, u');
      Antisymmetric(n, t, u);
      assert Takes(p, i, before[t]) && Takes(p, j, before[u]) && Takes(q, k, before[t]) && Takes(q, l, before[u]);
    }
  }

  /**
    What a step achieves and the order of slots determine the plan: two plans for the same misses
    that meet both are the same.
   */
  lemma PlanIsDetermined(n: nat, before: Residency, current: set<nat>, p: Plan, q: Plan)
    requires n > 0 && Dense(before) && StepOutcome(before, current, p) && StepOutcome(before, current, q)
    requires SlotsInOrder(n, before, current, p) && SlotsInOrder(n, before, current, q) && p.misses == q.misses
    ensures p == q
  {
    hide StepOutcome, Dense, EvictsInOrder, RefillsInOrder, GrowsLast, NoDuplicates;
    SameEvictions(n, before, current, p, q);
    MissSlotMembers(before, current, p, q);
    MissSlotMembers(before, current, q, p);
    MissSlotsDiffer(before, current, p);
    MissSlotsDiffer(before, current, q);
    forall i, j, k, l | 0 <= i < j < |p.missSlots| && 0 <= k < |q.missSlots| && 0 <= l < |q.missSlots|
                        && p.missSlots[i] == q.missSlots[k] && p.missSlots[j] == q.missSlots[l]
      ensures k < l
    {
      DifferentAt(p.missSlots, i, j);
      OrderCarries(n, before, current, p, q, i, j, k, l);
    }
    SameOrderSame(p.missSlots, q.missSlots);
    SameResidents(before, current, p, q);
    SameResidents(before, current, q, p);
    assert p.resident == q.resident;
  }

  lemma DifferentAt(s: seq<nat>, i: nat, j: nat)
    requires NoDuplicates(s) && i < j < |s|
    ensures s[i] != s[j]
  {
  }

  lemma SameResidents(before: Residency, current: set<nat>, p: Plan, q: Plan)
    requires StepOutcome(before, current, p) && StepOutcome(before, current, q)
    requires before.Keys - p.resident.Keys == before.Keys - q.resident.Keys
    requires p.misses == q.misses && p.missSlots == q.missSlots
    ensures forall t :: t in p.resident ==> t in q.resident && q.resident[t] == p.resident[t]
  {
    hide Dense, NoDuplicates, Members, StepOutcome;
    KeptTheSame(before, current, q, p);
    SameCounts(before, current, p, q);
    forall t | t in p.misses
      ensures t in p.resident && t in q.resident && q.resident[t] == p.resident[t]
    {
      var k :| 0 <= k < |p.misses| && p.misses[k] == t;
      MissSlotCount(before, current, p);
      MissSlotIn(before, current, p, k);
      MissSlotIn(before, current, q, k);
    }
  }

  lemma MissSlotCount(before: Residency, current: set<nat>, p: Plan)
    requires StepOutcome(before, current, p)
    ensures |p.misses| == |p.missSlots|
  {
  }

  lemma PlaceInOrder(n: nat, s: seq<nat>, k: nat, l: nat)
    requires n > 0 && InShardOrder(n, s) && k < |s| && l < |s|
    ensures ShardBefore(n, s[k], s[l]) ==> k < l
  {
    Antisymmetric(n, s[k], s[l]);
  }

  /** Two enumerations of the same tokens in shard order are the same. */
  lemma SameMisses(n: nat, a: seq<nat>, b: seq<nat>)
    requires n > 0 && NoDuplicates(a) && NoDuplicates(b) && Members(a) == Members(b)
    requires InShardOrder(n, a) && InShardOrder(n, b)
    ensures a == b
  {
    NoDuplicatesCount(a);
    NoDuplicatesCount(b);
    forall x
      ensures x in a <==> x in b
    {
      assert x in Members(a) <==> x in Members(b);
    }
    forall i, j, k, l | 0 <= i < j < |a| && 0 <= k < |b| && 0 <= l < |b| && a[i] == b[k] && a[j] == b[l]
      ensures k < l
    {
      assert ShardBefore(n, a[i], a[j]);
      PlaceInOrder(n, b, k, l);
    }
    SameOrderSame(a, b);
  }

  lemma OutcomeMisses(before: Residency, current: set<nat>, p: Plan)
    requires StepOutcome(before, current, p)
    ensures p.Planned? && NoDuplicates(p.misses) && Members(p.misses) == current - before.Keys
  {
  }

  lemma PlannedMisses(selected: set<nat>, n: nat, before: Residency, capacity: nat)
    requires n > 0 && ReferencePlan(Sharded(selected, n), before, capacity).Planned?
    ensures InShardOrder(n, ReferencePlan(Sharded(selected, n), before, capacity).misses)
  {
    hide Sharded, Flatten, Misses, InShardOrder;
    ShardedMissesInOrder(selected, n, before);
  }

  /** Achieves what a step must, loads by shard and token, evicts in that order and hands the freed slots out in it. */
  ghost predicate Ideal(n: nat, before: Residency, selected: set<nat>, p: Plan)
    requires n > 0
  {
    StepOutcome(before, selected, p) && SlotsInOrder(n, before, selected, p) && InShardOrder(n, p.misses)
  }

  lemma PlanIsIdeal(selected: set<nat>, n: nat, before: Residency, capacity: nat)
    requires n > 0 && Dense(before) && |before| <= capacity && |selected| <= capacity
    ensures Ideal(n, before, selected, ReferencePlan(Sharded(selected, n), before, capacity))
  {
    hide StepOutcome, SlotsInOrder, InShardOrder, Dense, Sharded, Flatten, ReferencePlan, NoDuplicates, Members;
    var shards := Sharded(selected, n);
    ShardedPartition(selected, n);
    WholeSharded(selected, n);
    PlanMeetsSpecification(shards, before, capacity);
    PlanInOrder(shards, before, capacity);
    OutcomeMisses(before, selected, ReferencePlan(shards, before, capacity));
    PlannedMisses(selected, n, before, capacity);
  }

  lemma OneIdealPlan(n: nat, before: Residency, selected: set<nat>, p: Plan, q: Plan)
    requires n > 0 && Dense(before) && Ideal(n, before, selected, p) && Ideal(n, before, selected, q)
    ensures p == q
  {
    hide StepOutcome, SlotsInOrder, InShardOrder, Dense, NoDuplicates, Members;
    OutcomeMisses(before, selected, p);
    OutcomeMisses(before, selected, q);
    SameMisses(n, p.misses, q.misses);
    PlanIsDetermined(n, before, selected, p, q);
  }

  /**
    The plan for a selection that fits, exactly: the one plan that achieves what a step must, loads
    the misses by shard and token, evicts by shard and token, and hands out the freed slots in that
    order before new ones.
   */
  lemma PlanExactly(selected: set<nat>, n: nat, before: Residency, capacity: nat, p: Plan)
    requires n > 0 && Dense(before) && |before| <= capacity && |selected| <= capacity
    ensures p == ReferencePlan(Sharded(selected, n), before, capacity) <==> Ideal(n, before, selected, p)
  {
    hide Ideal, Dense, Sharded, ReferencePlan;
    PlanIsIdeal(selected, n, before, capacity);
    if Ideal(n, before, selected, p) {
      OneIdealPlan(n, before, selected, p, ReferencePlan(Sharded(selected, n), before, capacity));
    }
  }
}
