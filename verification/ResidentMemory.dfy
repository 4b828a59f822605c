/**
  The paged memory behind the scratch slots.  A cell remembers whose latent was last written to it,
  so that "the right latent is read" is a statement about what the cell holds.
 */
module ResidentMemory {
  import opened Arithmetic
  import opened SortedSets
  import opened ResidentPlanner
  import opened ResidentRequest

  datatype Cell = Latent(request: string, token: nat) | Foreign
  type Memory = map<nat, Cell>

  datatype Config = Config(capacity: nat, blockSize: nat, shardCount: nat)

  ghost predicate ValidConfig(c: Config) {
    c.blockSize > 0 && c.shardCount > 0
  }

  /** The blocks `table` give every scratch slot an address of its own. */
  ghost predicate Backs(c: Config, table: seq<nat>) {
    ValidConfig(c) && NoDuplicates(table) && c.capacity <= |table| * c.blockSize
  }

  lemma SlotHasBlock(c: Config, table: seq<nat>, slot: nat)
    requires Backs(c, table) && slot < c.capacity
    ensures slot / c.blockSize < |table|
  {
    if slot / c.blockSize >= |table| {
      Scale(|table|, slot / c.blockSize, c.blockSize);
    }
  }

  ghost function SlotAddress(c: Config, table: seq<nat>, slot: nat): nat
    requires Backs(c, table) && slot < c.capacity
  {
    SlotHasBlock(c, table, slot);
    Address(table, c.blockSize, slot)
  }

  /** Addresses the scratch of a request may occupy. */
  ghost function Scratch(c: Config, table: seq<nat>): set<nat>
    requires Backs(c, table)
  {
    set slot | 0 <= slot < c.capacity :: SlotAddress(c, table, slot)
  }

  lemma SlotAddressInjective(c: Config, table: seq<nat>, a: nat, b: nat)
    requires Backs(c, table) && a < c.capacity && b < c.capacity
    requires SlotAddress(c, table, a) == SlotAddress(c, table, b)
    ensures a == b
  {
    SlotHasBlock(c, table, a);
    SlotHasBlock(c, table, b);
    AddressInjective(table, c.blockSize, a, b);
  }

  // ----- Loading latents into slots

  ghost function Load(c: Config, memory: Memory, q: string, table: seq<nat>, tokens: seq<nat>, slots: seq<nat>): Memory
    requires Backs(c, table) && |tokens| == |slots| && forall k :: 0 <= k < |slots| ==> slots[k] < c.capacity
  {
    if tokens == [] then memory
    else
      var k := |tokens| - 1;
      Load(c, memory, q, table, tokens[..k], slots[..k])[SlotAddress(c, table, slots[k]) := Latent(q, tokens[k])]
  }

  lemma {:induction false} LoadWrites(c: Config, memory: Memory, q: string, table: seq<nat>, tokens: seq<nat>, slots: seq<nat>, k: nat)
    requires Backs(c, table) && |tokens| == |slots| && NoDuplicates(slots) && k < |slots|
    requires forall i :: 0 <= i < |slots| ==> slots[i] < c.capacity
    ensures var after := Load(c, memory, q, table, tokens, slots);
            var a := SlotAddress(c, table, slots[k]);
            a in after && after[a] == Latent(q, tokens[k])
  {
    hide SlotAddress;
    var last := |tokens| - 1;
    if k < last {
      LoadWrites(c, memory, q, table, tokens[..last], slots[..last], k);
      if SlotAddress(c, table, slots[k]) == SlotAddress(c, table, slots[last]) {
        SlotAddressInjective(c, table, slots[k], slots[last]);
      }
    }
  }

  lemma {:induction false} LoadKeeps(c: Config, memory: Memory, q: string, table: seq<nat>, tokens: seq<nat>, slots: seq<nat>, a: nat)
    requires Backs(c, table) && |tokens| == |slots|
    requires forall i :: 0 <= i < |slots| ==> slots[i] < c.capacity
    requires forall i :: 0 <= i < |slots| ==> a != SlotAddress(c, table, slots[i])
    ensures var after := Load(c, memory, q, table, tokens, slots);
            (a in after <==> a in memory) && (a in memory ==> after[a] == memory[a])
  {
    hide SlotAddress;
    if tokens != [] {
      var last := |tokens| - 1;
      LoadKeeps(c, memory, q, table, tokens[..last], slots[..last], a);
    }
  }

  /** Loading each of `tokens` into its slot, resident or not. */
  ghost function FullLoad(c: Config, memory: Memory, q: string, table: seq<nat>, resident: Residency, tokens: seq<nat>): Memory
    requires Backs(c, table) && forall t :: t in tokens ==> t in resident && resident[t] < c.capacity
  {
    Load(c, memory, q, table, tokens, SlotsOf(resident, tokens))
  }

  // ----- Residency in memory

  /** Every resident token's latent is in its slot. */
  ghost predicate Holds(c: Config, memory: Memory, q: string, table: seq<nat>, resident: Residency)
    requires Backs(c, table)
  {
    forall t :: t in resident ==>
      && resident[t] < c.capacity
      && SlotAddress(c, table, resident[t]) in memory
      && memory[SlotAddress(c, table, resident[t])] == Latent(q, t)
  }

  lemma MissSlotsFit(c: Config, before: Residency, current: set<nat>, plan: Plan)
    requires StepOutcome(before, current, plan) && |plan.resident| <= c.capacity
    ensures NoDuplicates(plan.missSlots) && |plan.missSlots| == |plan.misses|
    ensures forall t :: t in plan.resident ==> plan.resident[t] < c.capacity
    ensures forall k :: 0 <= k < |plan.missSlots| ==> plan.missSlots[k] < c.capacity
  {
    forall i, j | 0 <= i < j < |plan.missSlots|
      ensures plan.missSlots[i] != plan.missSlots[j]
    {
      assert plan.resident[plan.misses[i]] == plan.missSlots[i];
      assert plan.resident[plan.misses[j]] == plan.missSlots[j];
    }
    forall k | 0 <= k < |plan.missSlots|
      ensures plan.missSlots[k] < c.capacity
    {
      assert plan.resident[plan.misses[k]] == plan.missSlots[k];
    }
  }

  /** A slot outside `slots` keeps its contents. */
  lemma OtherSlotKept(c: Config, memory: Memory, q: string, table: seq<nat>, tokens: seq<nat>, slots: seq<nat>, slot: nat)
    requires Backs(c, table) && |tokens| == |slots| && slot < c.capacity && slot !in slots
    requires forall i :: 0 <= i < |slots| ==> slots[i] < c.capacity
    requires SlotAddress(c, table, slot) in memory
    ensures var a := SlotAddress(c, table, slot);
            var after := Load(c, memory, q, table, tokens, slots);
            a in after && after[a] == memory[a]
  {
    hide SlotAddress, Load;
    forall i | 0 <= i < |slots|
      ensures SlotAddress(c, table, slot) != SlotAddress(c, table, slots[i])
    {
      if SlotAddress(c, table, slot) == SlotAddress(c, table, slots[i]) {
        SlotAddressInjective(c, table, slot, slots[i]);
      }
    }
    LoadKeeps(c, memory, q, table, tokens, slots, SlotAddress(c, table, slot));
  }

  lemma TokenHeld(c: Config, memory: Memory, q: string, table: seq<nat>, before: Residency, misses: seq<nat>,
                  slots: seq<nat>, t: nat, slot: nat)
    requires Backs(c, table) && Holds(c, memory, q, table, before)
    requires |misses| == |slots| && NoDuplicates(slots) && slot < c.capacity
    requires forall k :: 0 <= k < |slots| ==> slots[k] < c.capacity
    requires (exists k :: 0 <= k < |misses| && misses[k] == t && slots[k] == slot)
             || (t in before && before[t] == slot && slot !in slots)
    ensures var a := SlotAddress(c, table, slot);
            var after := Load(c, memory, q, table, misses, slots);
            a in after && after[a] == Latent(q, t)
  {
    hide SlotAddress, Load;
    if k :| 0 <= k < |misses| && misses[k] == t && slots[k] == slot {
      LoadWrites(c, memory, q, table, misses, slots, k);
    } else {
      OtherSlotKept(c, memory, q, table, misses, slots, slot);
    }
  }

  /** Loading only the misses leaves every resident token's latent in its slot. */
  lemma MissLoadSuffices(c: Config, memory: Memory, q: string, table: seq<nat>,
                         before: Residency, current: set<nat>, plan: Plan)
    requires Backs(c, table) && Holds(c, memory, q, table, before)
    requires StepOutcome(before, current, plan) && |plan.resident| <= c.capacity
    ensures forall k :: 0 <= k < |plan.missSlots| ==> plan.missSlots[k] < c.capacity
    ensures Holds(c, Load(c, memory, q, table, plan.misses, plan.missSlots), q, table, plan.resident)
  {
    hide SlotAddress, Load, Backs, Dense;
    MissSlotsFit(c, before, current, plan);
    var after := Load(c, memory, q, table, plan.misses, plan.missSlots);
    forall t | t in plan.resident
      ensures SlotAddress(c, table, plan.resident[t]) in after
      ensures after[SlotAddress(c, table, plan.resident[t])] == Latent(q, t)
    {
      TokenHeld(c, memory, q, table, before, plan.misses, plan.missSlots, t, plan.resident[t]);
    }
  }

  /**
    Loading the misses alone gives the very memory that reloading the whole selection into the
    same slots would give.
   */
  lemma MissLoadEqualsFullLoad(c: Config, memory: Memory, q: string, table: seq<nat>,
                               before: Residency, current: set<nat>, plan: Plan)
    requires Backs(c, table) && Holds(c, memory, q, table, before)
    requires StepOutcome(before, current, plan) && |plan.resident| <= c.capacity
    ensures forall k :: 0 <= k < |plan.missSlots| ==> plan.missSlots[k] < c.capacity
    ensures forall t :: t in current ==> t in plan.resident && plan.resident[t] < c.capacity
    ensures Load(c, memory, q, table, plan.misses, plan.missSlots)
            == FullLoad(c, memory, q, table, plan.resident, Ascending(current))
  {
    hide SlotAddress, Load, FullLoad, Backs, Holds;
    MissLoadSuffices(c, memory, q, table, before, current, plan);
    MissSlotsFit(c, before, current, plan);
    forall k | 0 <= k < |plan.misses|
      ensures plan.misses[k] in Ascending(current)
    {
      assert plan.misses[k] in Members(plan.misses);
    }
    SameLoad(c, memory, q, table, plan.misses, plan.missSlots, Ascending(current), plan.resident);
  }

  lemma SameLoad(c: Config, memory: Memory, q: string, table: seq<nat>, misses: seq<nat>, slots: seq<nat>,
                 tokens: seq<nat>, resident: Residency)
    requires Backs(c, table) && |misses| == |slots|
    requires forall k :: 0 <= k < |slots| ==> slots[k] < c.capacity
    requires Dense(resident) && |resident| <= c.capacity
    requires NoDuplicates(tokens) && forall t :: t in tokens ==> t in resident
    requires forall k :: 0 <= k < |misses| ==> misses[k] in tokens && resident[misses[k]] == slots[k]
    requires Holds(c, Load(c, memory, q, table, misses, slots), q, table, resident)
    ensures Load(c, memory, q, table, misses, slots) == FullLoad(c, memory, q, table, resident, tokens)
  {
    hide SlotAddress, Load, Dense, Backs;
    var fullSlots := SlotsOf(resident, tokens);
    var partial := Load(c, memory, q, table, misses, slots);
    var full := FullLoad(c, memory, q, table, resident, tokens);
    forall a: nat
      ensures (a in partial <==> a in full) && (a in partial ==> partial[a] == full[a])
    {
      if k :| 0 <= k < |tokens| && a == SlotAddress(c, table, fullSlots[k]) {
        LoadWrites(c, memory, q, table, tokens, fullSlots, k);
        assert resident[tokens[k]] == fullSlots[k];
      } else {
        LoadKeeps(c, memory, q, table, tokens, fullSlots, a);
        forall i | 0 <= i < |slots|
          ensures a != SlotAddress(c, table, slots[i])
        {
          var k :| 0 <= k < |tokens| && tokens[k] == misses[i];
          assert fullSlots[k] == slots[i];
        }
        LoadKeeps(c, memory, q, table, misses, slots, a);
      }
    }
  }

  /** Loads into one scratch leave a residency in a disjoint scratch as it was. */
  lemma DisjointLoadKeeps(c: Config, memory: Memory, q: string, table: seq<nat>, tokens: seq<nat>, slots: seq<nat>,
                          other: string, otherTable: seq<nat>, resident: Residency)
    requires Backs(c, table) && Backs(c, otherTable) && |tokens| == |slots|
    requires forall i :: 0 <= i < |slots| ==> slots[i] < c.capacity
    requires Scratch(c, table) !! Scratch(c, otherTable)
    requires Holds(c, memory, other, otherTable, resident)
    ensures Holds(c, Load(c, memory, q, table, tokens, slots), other, otherTable, resident)
  {
    hide SlotAddress, Load, Backs;
    forall t | t in resident
      ensures var a := SlotAddress(c, otherTable, resident[t]);
              var after := Load(c, memory, q, table, tokens, slots);
              a in after && after[a] == memory[a]
    {
      var a := SlotAddress(c, otherTable, resident[t]);
      assert a in Scratch(c, otherTable);
      forall i | 0 <= i < |slots|
        ensures a != SlotAddress(c, table, slots[i])
      {
        assert SlotAddress(c, table, slots[i]) in Scratch(c, table);
      }
      LoadKeeps(c, memory, q, table, tokens, slots, a);
    }
  }

  lemma BlockOfSlot(c: Config, table: seq<nat>, slot: nat)
    requires Backs(c, table) && slot < c.capacity
    ensures SlotAddress(c, table, slot) / c.blockSize in table
  {
    SlotHasBlock(c, table, slot);
    AddressInBlock(table, c.blockSize, slot);
  }

  /** Scratches on different blocks do not overlap. */
  lemma SeparateTables(c: Config, a: seq<nat>, b: seq<nat>)
    requires Backs(c, a) && Backs(c, b)
    requires forall x :: x in a ==> x !in b
    ensures Scratch(c, a) !! Scratch(c, b)
  {
    hide SlotAddress, Backs;
    forall x | x in Scratch(c, a)
      ensures x !in Scratch(c, b)
    {
      var i :| 0 <= i < c.capacity && SlotAddress(c, a, i) == x;
      BlockOfSlot(c, a, i);
      if x in Scratch(c, b) {
        var j :| 0 <= j < c.capacity && SlotAddress(c, b, j) == x;
        BlockOfSlot(c, b, j);
      }
    }
  }
}
