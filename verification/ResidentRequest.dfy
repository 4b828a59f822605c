/**
  One request's share of a decode step: its top-k rows select tokens, the selection is sharded and
  planned, and the top-k positions below the boundary are rewritten to scratch slots.
 */
module ResidentRequest {
  import opened Arithmetic
  import opened SortedSets
  import opened ResidentPlanner

  /** Width of one top-k row. */
  const INDEX_TOPK: nat := 2048

  /** `boundaries[r]` belongs to the `r`-th row of `INDEX_TOPK` entries of `source`. */
  ghost predicate WellShaped(source: seq<int>, boundaries: seq<int>) {
    |source| == |boundaries| * INDEX_TOPK
  }

  /** Position `p` names an offloaded token: its entry lies below the boundary of its row. */
  predicate Offloaded(source: seq<int>, boundaries: seq<int>, p: nat)
    requires |source| == |boundaries| * INDEX_TOPK
    requires p < |source|
  {
    0 <= source[p] < boundaries[p / INDEX_TOPK]
  }

  /** Tokens selected by the first `upTo` positions. */
  ghost function SelectedUpTo(source: seq<int>, boundaries: seq<int>, upTo: nat): set<nat>
    requires WellShaped(source, boundaries) && upTo <= |source|
  {
    if upTo == 0 then {}
    else SelectedUpTo(source, boundaries, upTo - 1)
         + if Offloaded(source, boundaries, upTo - 1) then {source[upTo - 1] as nat} else {}
  }

  ghost function Selected(source: seq<int>, boundaries: seq<int>): set<nat>
    requires WellShaped(source, boundaries)
  {
    SelectedUpTo(source, boundaries, |source|)
  }

  lemma {:induction false} SelectedMembers(source: seq<int>, boundaries: seq<int>, upTo: nat)
    requires WellShaped(source, boundaries) && upTo <= |source|
    ensures forall t :: t in SelectedUpTo(source, boundaries, upTo) <==>
              exists p :: 0 <= p < upTo && Offloaded(source, boundaries, p) && source[p] == t
    ensures |SelectedUpTo(source, boundaries, upTo)| <= upTo
  {
    if upTo > 0 {
      SelectedMembers(source, boundaries, upTo - 1);
    }
  }

  // ----- Sharding

  function InShard(selected: set<nat>, shardCount: nat, shard: nat): set<nat>
    requires shardCount > 0
  {
    set t | t in selected && t % shardCount == shard
  }

  /** The selection split by `token % shardCount`, each shard sorted. */
  function Sharded(selected: set<nat>, shardCount: nat): seq<seq<nat>>
    requires shardCount > 0
  {
    seq(shardCount, s requires 0 <= s < shardCount => Ascending(InShard(selected, shardCount, s)))
  }

  lemma {:induction false} ShardedPrefix(selected: set<nat>, shardCount: nat, upTo: nat)
    requires 0 < shardCount && upTo <= shardCount
    ensures var flat := Flatten(Sharded(selected, shardCount)[..upTo]);
            && NoDuplicates(flat)
            && (forall t :: t in flat <==> t in selected && t % shardCount < upTo)
  {
    if upTo > 0 {
      var shards := Sharded(selected, shardCount);
      ShardedPrefix(selected, shardCount, upTo - 1);
      assert shards[..upTo][..upTo - 1] == shards[..upTo - 1];
      var before, here := Flatten(shards[..upTo - 1]), shards[upTo - 1];
      assert Flatten(shards[..upTo]) == before + here;
      NoDuplicatesConcat(before, here);
      assert forall t :: t in before + here <==> t in before || t in here;
    }
  }

  /** Sharding loses nothing and repeats nothing. */
  lemma ShardedPartition(selected: set<nat>, shardCount: nat)
    requires shardCount > 0
    ensures NoDuplicates(Flatten(Sharded(selected, shardCount)))
    ensures Members(Flatten(Sharded(selected, shardCount))) == selected
  {
    ShardedPrefix(selected, shardCount, shardCount);
    var shards := Sharded(selected, shardCount);
    assert shards[..shardCount] == shards;
  }

  // ----- Remapping

  /** The top-k entries after offloaded tokens are replaced by their slots. */
  function Remapped(source: seq<int>, boundaries: seq<int>, resident: Residency): seq<int>
    requires |source| == |boundaries| * INDEX_TOPK
    requires forall p :: 0 <= p < |source| && Offloaded(source, boundaries, p) ==> source[p] as nat in resident
  {
    seq(|source|, p requires 0 <= p < |source| =>
      if Offloaded(source, boundaries, p) then resident[source[p] as nat] else source[p])
  }

  /** Address of a position of the request in the paged memory. */
  function Address(table: seq<nat>, blockSize: nat, position: nat): nat
    requires blockSize > 0
    requires position / blockSize < |table|
  {
    table[position / blockSize] * blockSize + position % blockSize
  }

  lemma AddressInBlock(table: seq<nat>, blockSize: nat, position: nat)
    requires blockSize > 0 && position / blockSize < |table|
    ensures Address(table, blockSize, position) / blockSize == table[position / blockSize]
    ensures Address(table, blockSize, position) % blockSize == position % blockSize
  {
    EuclideanUnique(table[position / blockSize], position % blockSize, blockSize);
  }

  /** With distinct block ids, different positions of a request have different addresses. */
  lemma AddressInjective(table: seq<nat>, blockSize: nat, a: nat, b: nat)
    requires blockSize > 0 && NoDuplicates(table)
    requires a / blockSize < |table| && b / blockSize < |table|
    requires Address(table, blockSize, a) == Address(table, blockSize, b)
    ensures a == b
  {
    AddressInBlock(table, blockSize, a);
    AddressInBlock(table, blockSize, b);
    assert a == (a / blockSize) * blockSize + a % blockSize;
    assert b == (b / blockSize) * blockSize + b % blockSize;
  }
}
