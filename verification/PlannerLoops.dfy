/** The planner as the loops that compute it. */
module PlannerLoops {
  import opened SortedSets
  import opened ResidentPlanner
  import opened ResidentRequest

  // ----- Planning one step

  lemma {:induction false} MissesConcat(a: seq<nat>, b: seq<nat>, resident: Residency)
    ensures Misses(a + b, resident) == Misses(a, resident) + Misses(b, resident)
  {
    if b == [] {
      assert a + b == a;
    } else {
      var k := |b| - 1;
      MissesConcat(a, b[..k], resident);
      assert (a + b)[..|a + b| - 1] == a + b[..k];
    }
  }

  lemma FlattenNext(shards: seq<seq<nat>>, s: nat)
    requires s < |shards|
    ensures Flatten(shards[..s + 1]) == Flatten(shards[..s]) + shards[s]
  {
    assert shards[..s + 1][..s] == shards[..s];
  }

  lemma {:induction false} FlattenSplit(shards: seq<seq<nat>>, s: nat, i: nat)
    requires s < |shards| && i <= |shards[s]|
    ensures exists rest :: Flatten(shards) == Flatten(shards[..s]) + shards[s][..i] + rest
    decreases |shards|
  {
    var last := |shards| - 1;
    if s == last {
      assert shards[s] == shards[s][..i] + shards[s][i..];
      assert Flatten(shards) == Flatten(shards[..s]) + shards[s][..i] + shards[s][i..];
    } else {
      FlattenSplit(shards[..last], s, i);
      assert shards[..last][..s] == shards[..s];
      var rest :| Flatten(shards[..last]) == Flatten(shards[..s]) + shards[s][..i] + rest;
      assert Flatten(shards) == Flatten(shards[..s]) + shards[s][..i] + (rest + shards[last]);
    }
  }

  lemma {:induction false} AssignedKeys(tokens: seq<nat>, slots: seq<nat>)
    requires |tokens| == |slots|
    ensures forall t :: t in Assigned(tokens, slots) <==> t in tokens
  {
    if tokens != [] {
      var k := |tokens| - 1;
      AssignedKeys(tokens[..k], slots[..k]);
      assert tokens == tokens[..k] + [tokens[k]];
    }
  }

  /** Progress of the assignment loop after the tokens `done`. */
  ghost predicate Placed(done: seq<nat>, resident: Residency, free: seq<nat>, occupied: nat, capacity: nat,
                         misses: seq<nat>, missSlots: seq<nat>, slotOf: Residency)
  {
    && misses == Misses(done, resident)
    && missSlots == NewSlots(free, occupied, |misses|)
    && (forall k :: 0 <= k < |missSlots| ==> missSlots[k] < capacity)
    && (forall t :: t in misses ==> t !in resident)
    && (forall t :: t in Assigned(misses, missSlots) ==> t in slotOf && slotOf[t] == Assigned(misses, missSlots)[t])
  }

  lemma PlaceHit(done: seq<nat>, resident: Residency, free: seq<nat>, occupied: nat, capacity: nat,
                 misses: seq<nat>, missSlots: seq<nat>, slotOf: Residency, token: nat)
    requires Placed(done, resident, free, occupied, capacity, misses, missSlots, slotOf)
    requires token in resident
    ensures Placed(done + [token], resident, free, occupied, capacity, misses, missSlots,
                   slotOf[token := resident[token]])
  {
    assert (done + [token])[..|done|] == done;
    AssignedKeys(misses, missSlots);
  }

  lemma PlaceMiss(done: seq<nat>, resident: Residency, free: seq<nat>, occupied: nat, capacity: nat,
                  misses: seq<nat>, missSlots: seq<nat>, slotOf: Residency, token: nat)
    requires Placed(done, resident, free, occupied, capacity, misses, missSlots, slotOf)
    requires token !in resident && NewSlot(free, occupied, |misses|) < capacity
    ensures var slot := NewSlot(free, occupied, |misses|);
            Placed(done + [token], resident, free, occupied, capacity, misses + [token], missSlots + [slot],
                   slotOf[token := slot])
  {
    var slot := NewSlot(free, occupied, |misses|);
    assert (done + [token])[..|done|] == done;
    assert (misses + [token])[..|misses|] == misses && (missSlots + [slot])[..|misses|] == missSlots;
    assert missSlots + [slot] == NewSlots(free, occupied, |misses| + 1);
  }

  lemma FirstBeyondStops(resident: Residency, misses: seq<nat>, slots: seq<nat>, capacity: nat, k: nat)
    requires |misses| == |slots| && k < |slots| && slots[k] >= capacity
    requires forall j :: 0 <= j < k ==> slots[j] < capacity
    ensures WithinCapacity(resident, misses, slots, capacity) == BeyondCapacity(slots[k])
  {
  }

  /** The step stops at the first miss whose slot does not fit. */
  lemma PlaceBeyond(shards: seq<seq<nat>>, done: seq<nat>, resident: Residency, capacity: nat,
                    misses: seq<nat>, missSlots: seq<nat>, slotOf: Residency, token: nat, rest: seq<nat>)
    requires SlotSetDense(resident)
    requires Flatten(shards) == done + [token] + rest
    requires Placed(done, resident, FreeSlots(shards, resident), |resident.Values|, capacity, misses, missSlots, slotOf)
    requires token !in resident
    requires NewSlot(FreeSlots(shards, resident), |resident.Values|, |misses|) >= capacity
    ensures ReferencePlan(shards, resident, capacity)
            == BeyondCapacity(NewSlot(FreeSlots(shards, resident), |resident.Values|, |misses|))
  {
    MissesConcat(done + [token], rest, resident);
    assert (done + [token])[..|done|] == done;
    var all := Misses(Flatten(shards), resident);
    assert |misses| < |all|;
    var slots := NewSlots(FreeSlots(shards, resident), |resident.Values|, |all|);
    assert forall j :: 0 <= j < |misses| ==> slots[j] == missSlots[j];
    FirstBeyondStops(resident, all, slots, capacity, |misses|);
  }

  lemma StoppedAt(shards: seq<seq<nat>>, s: nat, stop: nat, resident: Residency, capacity: nat,
                  misses: seq<nat>, missSlots: seq<nat>, slotOf: Residency)
    requires SlotSetDense(resident) && s < |shards| && stop < |shards[s]| && shards[s][stop] !in resident
    requires Placed(Flatten(shards[..s]) + shards[s][..stop], resident, FreeSlots(shards, resident),
                    |resident.Values|, capacity, misses, missSlots, slotOf)
    requires NewSlot(FreeSlots(shards, resident), |resident.Values|, |misses|) >= capacity
    ensures ReferencePlan(shards, resident, capacity)
            == BeyondCapacity(NewSlot(FreeSlots(shards, resident), |resident.Values|, |misses|))
  {
    hide Placed;
    var done := Flatten(shards[..s]) + shards[s][..stop];
    FlattenSplit(shards, s, stop + 1);
    var rest :| Flatten(shards) == Flatten(shards[..s]) + shards[s][..stop + 1] + rest;
    assert Flatten(shards[..s]) + shards[s][..stop + 1] == done + [shards[s][stop]];
    PlaceBeyond(shards, done, resident, capacity, misses, missSlots, slotOf, shards[s][stop], rest);
  }

  lemma NotDenseRejected(shards: seq<seq<nat>>, resident: Residency, capacity: nat)
    requires !SlotSetDense(resident)
    ensures ReferencePlan(shards, resident, capacity) == NotDense
  {
  }

  lemma PlacedNone(shards: seq<seq<nat>>, resident: Residency, free: seq<nat>, occupied: nat, capacity: nat)
    ensures Placed(Flatten(shards[..0]), resident, free, occupied, capacity, [], [], map[])
  {
  }

  lemma AllFit(resident: Residency, misses: seq<nat>, slots: seq<nat>, capacity: nat)
    requires |misses| == |slots| && forall k :: 0 <= k < |slots| ==> slots[k] < capacity
    ensures WithinCapacity(resident, misses, slots, capacity) == Planned(Replaced(resident, misses, slots), misses, slots)
  {
  }

  lemma PlacedEverything(shards: seq<seq<nat>>, resident: Residency, capacity: nat,
                         misses: seq<nat>, missSlots: seq<nat>, slotOf: Residency)
    requires SlotSetDense(resident)
    requires Placed(Flatten(shards), resident, FreeSlots(shards, resident), |resident.Values|, capacity,
                    misses, missSlots, slotOf)
    ensures |misses| == |missSlots|
    ensures forall t :: t in misses ==> t in slotOf
    ensures (map t | t in misses :: slotOf[t]) == Assigned(misses, missSlots)
    ensures ReferencePlan(shards, resident, capacity)
            == Planned(Replaced(resident, misses, missSlots), misses, missSlots)
  {
    AssignedKeys(misses, missSlots);
    AllFit(resident, misses, missSlots, capacity);
  }

  lemma PlacedAll(shards: seq<seq<nat>>, resident: Residency, capacity: nat,
                  misses: seq<nat>, missSlots: seq<nat>, slotOf: Residency)
    requires SlotSetDense(resident)
    requires Placed(Flatten(shards), resident, FreeSlots(shards, resident), |resident.Values|, capacity,
                    misses, missSlots, slotOf)
    ensures forall t :: t in misses ==> t in slotOf
    ensures ReferencePlan(shards, resident, capacity)
            == Planned((map t | t in resident && resident[t] !in missSlots :: resident[t])
                       + (map t | t in misses :: slotOf[t]), misses, missSlots)
  {
    hide Placed, ReferencePlan, Assigned, Flatten, FreeSlots, SlotSetDense;
    PlacedEverything(shards, resident, capacity, misses, missSlots, slotOf);
  }

  lemma SlotsConcat(resident: Residency, a: seq<nat>, b: seq<nat>)
    requires forall t :: t in a ==> t in resident
    requires forall t :: t in b ==> t in resident
    ensures SlotsOf(resident, a + b) == SlotsOf(resident, a) + SlotsOf(resident, b)
  {
  }

  method EvictableSlots(shards: seq<seq<nat>>, resident: Residency) returns (evictable: seq<nat>)
    ensures evictable == FreeSlots(shards, resident)
  {
    var current, shardCount := Members(Flatten(shards)), |shards|;
    evictable := [];
    for shard := 0 to shardCount
      invariant evictable == SlotsOf(resident, Victims(resident, current, shardCount, shard))
    {
      var oldTokens := ShardVictims(resident, current, shardCount, shard);
      SlotsConcat(resident, Victims(resident, current, shardCount, shard), oldTokens);
      evictable := evictable + SlotsOf(resident, oldTokens);
    }
  }

  /** Assigns slots to one shard, or stops at position `stop` when `slot` does not fit. */
  method AssignShard(shard: seq<nat>, resident: Residency, evictable: seq<nat>, occupied: nat, capacity: nat,
                     ghost earlier: seq<nat>, misses0: seq<nat>, missSlots0: seq<nat>, slotOf0: Residency)
    returns (fits: bool, slot: nat, misses: seq<nat>, missSlots: seq<nat>, slotOf: Residency, ghost stop: nat)
    requires Placed(earlier, resident, evictable, occupied, capacity, misses0, missSlots0, slotOf0)
    ensures stop <= |shard| && (fits <==> stop == |shard|)
    ensures Placed(earlier + shard[..stop], resident, evictable, occupied, capacity, misses, missSlots, slotOf)
    ensures !fits ==> shard[stop] !in resident && capacity <= slot == NewSlot(evictable, occupied, |misses|)
  {
    hide Placed;
    fits, slot, misses, missSlots, slotOf := true, 0, misses0, missSlots0, slotOf0;
    stop := |shard|;
    assert earlier + shard[..0] == earlier;
    for i := 0 to |shard|
      invariant Placed(earlier + shard[..i], resident, evictable, occupied, capacity, misses, missSlots, slotOf)
    {
      var token := shard[i];
      ghost var done := earlier + shard[..i];
      assert earlier + shard[..i + 1] == done + [token];
      if token in resident {
        PlaceHit(done, resident, evictable, occupied, capacity, misses, missSlots, slotOf, token);
        slotOf := slotOf[token := resident[token]];
      } else {
        var k := |misses|;
        slot := if k < |evictable| then evictable[k] else occupied + k - |evictable|;
        if slot >= capacity {
          fits, stop := false, i;
          return;
        }
        PlaceMiss(done, resident, evictable, occupied, capacity, misses, missSlots, slotOf, token);
        slotOf := slotOf[token := slot];
        misses := misses + [token];
        missSlots := missSlots + [slot];
      }
    }
  }

  method ReferenceStep(shards: seq<seq<nat>>, resident: Residency, capacity: nat) returns (plan: Plan)
    ensures plan == ReferencePlan(shards, resident, capacity)
  {
    hide *;
    if !SlotSetDense(resident) {
      NotDenseRejected(shards, resident, capacity);
      return NotDense;
    }
    var occupied := |resident.Values|;
    var evictable := EvictableSlots(shards, resident);
    var slotOf: Residency, misses: seq<nat>, missSlots: seq<nat> := map[], [], [];
    PlacedNone(shards, resident, evictable, occupied, capacity);
    for s := 0 to |shards|
      invariant Placed(Flatten(shards[..s]), resident, evictable, occupied, capacity, misses, missSlots, slotOf)
    {
      ghost var earlier := Flatten(shards[..s]);
      var fits, slot;
      ghost var stop;
      fits, slot, misses, missSlots, slotOf, stop :=
        AssignShard(shards[s], resident, evictable, occupied, capacity, earlier, misses, missSlots, slotOf);
      if !fits {
        StoppedAt(shards, s, stop, resident, capacity, misses, missSlots, slotOf);
        return BeyondCapacity(slot);
      }
      FlattenNext(shards, s);
      assert shards[s][..|shards[s]|] == shards[s];
    }
    assert shards[..|shards|] == shards;
    PlacedAll(shards, resident, capacity, misses, missSlots, slotOf);
    var kept := map t | t in resident && resident[t] !in missSlots :: resident[t];
    return Planned(kept + map t | t in misses :: slotOf[t], misses, missSlots);
  }

  // ----- Building the shards of a request

  ghost predicate Bucketed(buckets: seq<seq<nat>>, selected: set<nat>, shardCount: nat)
    requires shardCount > 0
  {
    && |buckets| == shardCount
    && (forall s :: 0 <= s < shardCount ==> Members(buckets[s]) == InShard(selected, shardCount, s))
  }

  lemma BucketAdd(buckets: seq<seq<nat>>, selected: set<nat>, shardCount: nat, token: nat)
    requires shardCount > 0 && Bucketed(buckets, selected, shardCount)
    ensures var s := token % shardCount;
            Bucketed(buckets[s := buckets[s] + [token]], selected + {token}, shardCount)
  {
    var added := token % shardCount;
    var after := buckets[added := buckets[added] + [token]];
    forall s | 0 <= s < shardCount
      ensures Members(after[s]) == InShard(selected + {token}, shardCount, s)
    {
      assert Members(after[s]) == if s == added then Members(buckets[s]) + {token} else Members(buckets[s]);
    }
  }

  method BuildShards(source: seq<int>, boundaries: seq<int>, shardCount: nat) returns (shards: seq<seq<nat>>)
    requires WellShaped(source, boundaries) && shardCount > 0
    ensures shards == Sharded(Selected(source, boundaries), shardCount)
  {
    var buckets: seq<seq<nat>> := seq(shardCount, s => []);
    for row := 0 to |boundaries|
      invariant Bucketed(buckets, SelectedUpTo(source, boundaries, row * INDEX_TOPK), shardCount)
    {
      var boundary := boundaries[row];
      for i := 0 to INDEX_TOPK
        invariant Bucketed(buckets, SelectedUpTo(source, boundaries, row * INDEX_TOPK + i), shardCount)
      {
        
        ghost var p := row * INDEX_TOPK + i;
        var token := source[row * INDEX_TOPK + i];
        assert p / INDEX_TOPK == row;
        if 0 <= token < boundary {
          BucketAdd(buckets, SelectedUpTo(source, boundaries, p), shardCount, token);
          buckets := buckets[token % shardCount := buckets[token % shardCount] + [token]];
        }
      }
    }
    shards := seq(shardCount, s requires 0 <= s < |buckets| => Ascending(Members(buckets[s])));
  }

  // ----- Rewriting the top-k entries in place

  method RemapTopK(remapped: array<int>, source: seq<int>, boundaries: seq<int>, resident: Residency)
    requires WellShaped(source, boundaries) && remapped[..] == source
    requires forall p :: 0 <= p < |source| && Offloaded(source, boundaries, p) ==> source[p] as nat in resident
    modifies remapped
    ensures remapped[..] == Remapped(source, boundaries, resident)
    ensures forall p :: 0 <= p < |source| ==>
              remapped[p] == if Offloaded(source, boundaries, p) then resident[source[p] as nat] else source[p]
  {
    assert remapped.Length == |source|;
    for position := 0 to |source|
      invariant forall p :: 0 <= p < position ==> remapped[p] == Remapped(source, boundaries, resident)[p]
      invariant forall p :: position <= p < |source| ==> remapped[p] == source[p]
    {
      var token := source[position];
      if 0 <= token < boundaries[position / INDEX_TOPK] {
        remapped[position] := resident[token];
      }
    }
  }
}
