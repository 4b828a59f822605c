/**
  Signatures of graph partitions: what each compiled partition takes, returns and frees.

  The signatures come from a backward pass over the partitions.  They are judged by a forward run:
  a partition may only be called with buffers that are available, and buffers it frees are gone.
 */
module PartitionSignatures {

  /** A scheduled node: the buffers it defines, the names it reads or writes, the buffers it uses last. */
  datatype Node = Node(outputs: set<string>, accesses: set<string>, lastUsage: set<string>)

  type Partition = seq<Node>

  /** Layout facts about a buffer. */
  datatype Buffer = Buffer(noneLayout: bool, mutation: bool)

  datatype Graph = Graph(
    inputs: set<string>,
    outputs: set<string>,
    constants: set<string>,
    buffers: map<string, Buffer>,
    realName: map<string, string>,
    partitions: seq<Partition>)

  datatype Signature = Signature(
    inputs: set<string>,
    outputs: set<string>,
    freed: set<string>,
    constants: set<string>)

  // ----- Names

  /** Mutation names resolve in one step. */
  ghost predicate Resolved(g: Graph) {
    forall n :: n in g.realName ==> g.realName[n] !in g.realName
  }

  function Real(g: Graph, n: string): string {
    if n in g.realName then g.realName[n] else n
  }

  /** Buffers that are not allocated; a mutation output is judged by the buffer it mutates. */
  predicate IsNoneLayout(g: Graph, n: string)
    requires Resolved(g)
    decreases n in g.realName
  {
    && n in g.buffers && g.buffers[n].noneLayout
    && (g.buffers[n].mutation && n in g.realName ==> IsNoneLayout(g, g.realName[n]))
  }

  function OutputsUpTo(p: Partition, upTo: nat): set<string>
    requires upTo <= |p|
  {
    if upTo == 0 then {} else OutputsUpTo(p, upTo - 1) + p[upTo - 1].outputs
  }

  function AccessesUpTo(p: Partition, upTo: nat): set<string>
    requires upTo <= |p|
  {
    if upTo == 0 then {} else AccessesUpTo(p, upTo - 1) + p[upTo - 1].accesses
  }

  function LastUsageUpTo(p: Partition, upTo: nat): set<string>
    requires upTo <= |p|
  {
    if upTo == 0 then {} else LastUsageUpTo(p, upTo - 1) + p[upTo - 1].lastUsage
  }

  function Outputs(p: Partition): set<string> { OutputsUpTo(p, |p|) }
  function Accesses(p: Partition): set<string> { AccessesUpTo(p, |p|) }
  function LastUsage(p: Partition): set<string> { LastUsageUpTo(p, |p|) }

  /** Graph inputs and everything defined by the first `upTo` partitions. */
  function Defined(g: Graph, upTo: nat): set<string>
    requires upTo <= |g.partitions|
  {
    if upTo == 0 then g.inputs else Defined(g, upTo - 1) + Outputs(g.partitions[upTo - 1])
  }

  function NodeNames(g: Graph): set<string> { Defined(g, |g.partitions|) }

  // ----- The backward pass

  /** Names a partition takes: what it touches and does not define, and what it uses last. */
  function InputNames(g: Graph, p: Partition): set<string>
    requires Resolved(g)
  {
    (set n | n in Accesses(p) && !IsNoneLayout(g, n) && n !in Outputs(p) :: Real(g, n))
    + (set n | n in LastUsage(p) && n !in Outputs(p) && n in NodeNames(g))
  }

  /** Names a partition returns, given the names needed after it. */
  function ReturnedNames(g: Graph, p: Partition, unmet: set<string>): set<string>
    requires Resolved(g)
  {
    var kept := set n | n in InputNames(g, p) && n in NodeNames(g) && n !in LastUsage(p);
    set n | n in Outputs(p) * unmet + kept :: Real(g, n)
  }

  function SignatureOf(g: Graph, p: Partition, unmet: set<string>): Signature
    requires Resolved(g)
  {
    var names := InputNames(g, p);
    Signature((set n | n in names && n in NodeNames(g)),
              (set n | n in ReturnedNames(g, p, unmet) && !IsNoneLayout(g, n)),
              (set n | n in names && n in NodeNames(g) && n in LastUsage(p)),
              (set n | n in names && n in g.constants))
  }

  function UnmetBefore(g: Graph, p: Partition, unmet: set<string>): set<string>
    requires Resolved(g)
  {
    InputNames(g, p) + (unmet - ReturnedNames(g, p, unmet))
  }

  /** Names still needed when partition `k` is about to run. */
  function Unmet(g: Graph, k: nat): set<string>
    requires Resolved(g) && k <= |g.partitions|
    decreases |g.partitions| - k
  {
    if k == |g.partitions| then g.outputs else UnmetBefore(g, g.partitions[k], Unmet(g, k + 1))
  }

  function SignatureAt(g: Graph, k: nat): Signature
    requires Resolved(g) && k < |g.partitions|
  {
    SignatureOf(g, g.partitions[k], Unmet(g, k + 1))
  }

  function Signatures(g: Graph): seq<Signature>
    requires Resolved(g)
  {
    seq(|g.partitions|, k requires 0 <= k < |g.partitions| => SignatureAt(g, k))
  }

  // ----- The forward run

  /** Buffers available after the first `k` partitions have run. */
  ghost function Available(g: Graph, signatures: seq<Signature>, k: nat): set<string>
    requires k <= |signatures|
  {
    if k == 0 then g.inputs
    else Available(g, signatures, k - 1) - signatures[k - 1].freed + signatures[k - 1].outputs
  }

  /** Every partition finds its inputs. */
  ghost predicate RunsThrough(g: Graph, signatures: seq<Signature>) {
    forall k :: 0 <= k < |signatures| ==> signatures[k].inputs <= Available(g, signatures, k)
  }

  // ----- What a schedule must be

  /** Each buffer is defined once and only used after it is defined. */
  ghost predicate Scheduled(g: Graph)
    requires Resolved(g)
  {
    && (forall k :: 0 <= k < |g.partitions| ==>
          && Outputs(g.partitions[k]) !! Defined(g, k)
          && (forall n :: n in InputNames(g, g.partitions[k]) && n in NodeNames(g) ==> n in Defined(g, k)))
  }

  /** A buffer is not needed any more after the partition that uses it last. */
  ghost predicate LastUsesAreLast(g: Graph)
    requires Resolved(g)
  {
    && (forall k, n :: 0 <= k < |g.partitions| && n in LastUsage(g.partitions[k]) ==> n !in g.outputs)
    && (forall j, k, n :: 0 <= j < k < |g.partitions| && n in LastUsage(g.partitions[j]) ==>
          n !in InputNames(g, g.partitions[k]))
  }

  /** Graph outputs and last-used names are real buffers, not mutation names. */
  ghost predicate RealNamesOnly(g: Graph) {
    && (forall n :: n in g.outputs ==> n !in g.realName)
    && (forall k, n :: 0 <= k < |g.partitions| && n in LastUsage(g.partitions[k]) ==> n !in g.realName)
  }

  ghost predicate WellFormed(g: Graph) {
    Resolved(g) && Scheduled(g) && LastUsesAreLast(g) && RealNamesOnly(g)
  }

  /** Some partition defines the buffer, and it is not allocated. */
  ghost predicate DefinedUnallocated(g: Graph, n: string)
    requires Resolved(g)
  {
    n in NodeNames(g) && n !in g.inputs && IsNoneLayout(g, n)
  }

  /**
    No partition uses an unallocated buffer of another one for the last time, and none touches one
    under a mutation name that itself counts as allocated.
   */
  ghost predicate NoUnallocatedUse(g: Graph)
    requires Resolved(g)
  {
    forall k :: 0 <= k < |g.partitions| ==> var p := g.partitions[k];
      && (forall n :: n in LastUsage(p) && n !in Outputs(p) ==> !DefinedUnallocated(g, n))
      && (forall n :: n in Accesses(p) && n !in Outputs(p) && !IsNoneLayout(g, n) ==> !DefinedUnallocated(g, Real(g, n)))
  }

  /** The condition on uses is the condition on what the pass makes inputs. */
  lemma UsesAreInputs(g: Graph)
    requires Resolved(g)
    ensures NoUnallocatedUse(g)
            <==> forall k, n :: 0 <= k < |g.partitions| && n in InputNames(g, g.partitions[k]) ==> !DefinedUnallocated(g, n)
  {
    hide IsNoneLayout, Outputs, Accesses, LastUsage, NodeNames;
    forall k | 0 <= k < |g.partitions|
      ensures var p := g.partitions[k];
              (forall n :: n in InputNames(g, p) ==> !DefinedUnallocated(g, n))
              <==> (forall n :: n in LastUsage(p) && n !in Outputs(p) ==> !DefinedUnallocated(g, n))
                   && (forall n :: n in Accesses(p) && n !in Outputs(p) && !IsNoneLayout(g, n) ==>
                         !DefinedUnallocated(g, Real(g, n)))
    {
      UsesOfPartition(g, g.partitions[k]);
    }
  }

  lemma UsesOfPartition(g: Graph, p: Partition)
    requires Resolved(g)
    ensures (forall n :: n in InputNames(g, p) ==> !DefinedUnallocated(g, n))
            <==> (forall n :: n in LastUsage(p) && n !in Outputs(p) ==> !DefinedUnallocated(g, n))
                 && (forall n :: n in Accesses(p) && n !in Outputs(p) && !IsNoneLayout(g, n) ==>
                       !DefinedUnallocated(g, Real(g, n)))
  {
    hide IsNoneLayout, Outputs, Accesses, LastUsage, NodeNames, Real;
    forall n | n in Accesses(p) && n !in Outputs(p) && !IsNoneLayout(g, n)
      ensures Real(g, n) in InputNames(g, p)
    {
    }
    forall n | n in LastUsage(p) && n !in Outputs(p) && DefinedUnallocated(g, n)
      ensures n in InputNames(g, p)
    {
    }
  }

  // ----- Facts about the backward pass

  lemma {:induction false} DefinedGrows(g: Graph, j: nat, k: nat)
    requires j <= k <= |g.partitions|
    ensures Defined(g, j) <= Defined(g, k)
  {
    if j < k {
      DefinedGrows(g, j, k - 1);
    }
  }

  lemma InputIsReal(g: Graph, k: nat, n: string)
    requires WellFormed(g) && k < |g.partitions| && n in InputNames(g, g.partitions[k])
    ensures n !in g.realName
  {
  }

  /** What is still needed before partition `k`: graph outputs and inputs of partitions from `k` on. */
  lemma {:induction false} UnmetMeaning(g: Graph, k: nat, n: string)
    requires WellFormed(g) && k <= |g.partitions| && n in Unmet(g, k)
    ensures n !in g.realName
    ensures n in g.outputs || exists j :: k <= j < |g.partitions| && n in InputNames(g, g.partitions[j])
    decreases |g.partitions| - k
  {
    hide Scheduled, LastUsesAreLast, InputNames, ReturnedNames;
    if k < |g.partitions| {
      if n in InputNames(g, g.partitions[k]) {
        InputIsReal(g, k, n);
      } else {
        UnmetMeaning(g, k + 1, n);
      }
    }
  }

  /** A returned name is one the partition defined and someone needs, or one it took and keeps. */
  lemma ReturnedMeaning(g: Graph, k: nat, n: string)
    requires WellFormed(g) && k < |g.partitions| && n in ReturnedNames(g, g.partitions[k], Unmet(g, k + 1))
    ensures || (n in Outputs(g.partitions[k]) && n in Unmet(g, k + 1))
            || (n in InputNames(g, g.partitions[k]) && n !in LastUsage(g.partitions[k]))
  {
    hide Scheduled, LastUsesAreLast, Unmet;
    var p := g.partitions[k];
    var m :| (m in Outputs(p) * Unmet(g, k + 1) || (m in InputNames(g, p) && m !in LastUsage(p))) && Real(g, m) == n;
    if m in Outputs(p) && m in Unmet(g, k + 1) {
      UnmetMeaning(g, k + 1, m);
      assert m == n;
    } else {
      InputIsReal(g, k, m);
      assert Real(g, m) == m;
      assert m == n;
    }
  }

  /** A partition returns a buffer it defines only if it is a graph output or an input of a later partition. */
  lemma ReturnsOnlyWhatIsNeeded(g: Graph, k: nat, n: string)
    requires WellFormed(g) && k < |g.partitions|
    requires n in SignatureAt(g, k).outputs && n in Outputs(g.partitions[k])
    ensures n in g.outputs || exists j :: k < j < |g.partitions| && n in InputNames(g, g.partitions[j])
  {
    hide LastUsesAreLast, InputNames, Unmet, ReturnedNames, RealNamesOnly;
    ReturnedMeaning(g, k, n);
    DefinedGrows(g, k + 1, |g.partitions|);
    if n in InputNames(g, g.partitions[k]) {
      InputDefinedEarlier(g, k, n);
    }
    UnmetMeaning(g, k + 1, n);
  }

  /** Every returned name has a node, so looking the nodes up cannot fail. */
  lemma ReturnedNamesHaveNodes(g: Graph, k: nat, n: string)
    requires WellFormed(g) && k < |g.partitions| && n in ReturnedNames(g, g.partitions[k], Unmet(g, k + 1))
    ensures n in NodeNames(g)
  {
    hide LastUsesAreLast, Scheduled, Unmet;
    DefinedGrows(g, k + 1, |g.partitions|);
    ReturnedMeaning(g, k, n);
    var p := g.partitions[k];
    var m :| (m in Outputs(p) * Unmet(g, k + 1) || (m in InputNames(g, p) && m in NodeNames(g))) && Real(g, m) == n;
    if m in Outputs(p) * Unmet(g, k + 1) {
      UnmetMeaning(g, k + 1, m);
      assert Real(g, m) == m;
    } else {
      InputIsReal(g, k, m);
      assert Real(g, m) == m;
    }
    assert m == n;
  }

  lemma InputDefinedEarlier(g: Graph, k: nat, n: string)
    requires WellFormed(g) && k < |g.partitions| && n in InputNames(g, g.partitions[k]) && n in NodeNames(g)
    ensures n in Defined(g, k) && n !in Outputs(g.partitions[k])
  {
  }

  // ----- The forward run against the backward pass

  /** A name the run can deliver: a graph input, or an allocated buffer. */
  ghost predicate Deliverable(g: Graph, n: string)
    requires Resolved(g)
  {
    n in g.inputs || !IsNoneLayout(g, n)
  }

  lemma {:induction false} AvailableIsDeliverable(g: Graph, k: nat, n: string)
    requires Resolved(g) && k <= |g.partitions| && n in Available(g, Signatures(g), k)
    ensures Deliverable(g, n)
  {
    hide IsNoneLayout, Unmet, ReturnedNames, InputNames;
    if k > 0 && n !in SignatureAt(g, k - 1).outputs {
      AvailableIsDeliverable(g, k - 1, n);
    }
  }

  /** Whatever is still needed, already defined and deliverable is available. */
  lemma {:induction false} NeededIsAvailable(g: Graph, k: nat, n: string)
    requires WellFormed(g) && k <= |g.partitions|
    requires n in Unmet(g, k) && n in Defined(g, k) && Deliverable(g, n)
    ensures n in Available(g, Signatures(g), k)
  {
    hide IsNoneLayout, Unmet, InputNames, LastUsesAreLast, RealNamesOnly, Scheduled;
    if k > 0 {
      var j := k - 1;
      var p := g.partitions[j];
      if n in Outputs(p) {
        DefinedOnce(g, j, n);
        ProducedIsReturned(g, j, n);
      } else {
        CarriedOver(g, j, n);
        NeededIsAvailable(g, j, n);
      }
    }
  }

  lemma DefinedOnce(g: Graph, k: nat, n: string)
    requires WellFormed(g) && k < |g.partitions| && n in Outputs(g.partitions[k])
    ensures n !in g.inputs
  {
    DefinedGrows(g, 0, k);
  }

  lemma ProducedIsReturned(g: Graph, k: nat, n: string)
    requires WellFormed(g) && k < |g.partitions|
    requires n in Outputs(g.partitions[k]) && n in Unmet(g, k + 1) && !IsNoneLayout(g, n)
    ensures n in SignatureAt(g, k).outputs
  {
    hide IsNoneLayout, Unmet, InputNames, LastUsesAreLast, RealNamesOnly, Scheduled;
    UnmetMeaning(g, k + 1, n);
    assert Real(g, n) == n;
  }

  /** A name needed after partition `k` but not defined by it was needed before it and is not freed by it. */
  lemma CarriedOver(g: Graph, k: nat, n: string)
    requires WellFormed(g) && k < |g.partitions| && n in Unmet(g, k + 1) && n !in Outputs(g.partitions[k])
    ensures n in Unmet(g, k) && n !in LastUsage(g.partitions[k])
  {
    hide IsNoneLayout, InputNames, RealNamesOnly, Scheduled, ReturnedNames;
    UnmetMeaning(g, k + 1, n);
    var p := g.partitions[k];
    if n in ReturnedNames(g, p, Unmet(g, k + 1)) {
      ReturnedMeaning(g, k, n);
    }
  }

  /** Deliverable inputs are available when their partition runs. */
  lemma InputsAvailable(g: Graph, k: nat)
    requires WellFormed(g) && NoUnallocatedUse(g) && k < |g.partitions|
    ensures SignatureAt(g, k).inputs <= Available(g, Signatures(g), k)
  {
    UsesAreInputs(g);
    forall n | n in SignatureAt(g, k).inputs
      ensures n in Available(g, Signatures(g), k)
    {
      hide IsNoneLayout, LastUsesAreLast, RealNamesOnly, ReturnedNames, InputNames;
      InputDefinedEarlier(g, k, n);
      NeededIsAvailable(g, k, n);
    }
  }

  /**
    The computed signatures let the partitions run through exactly when no partition uses an
    unallocated buffer of another one for the last time or under a mutation name.
   */
  lemma SignaturesRunThrough(g: Graph)
    requires WellFormed(g)
    ensures RunsThrough(g, Signatures(g)) <==> NoUnallocatedUse(g)
  {
    hide IsNoneLayout, LastUsesAreLast, RealNamesOnly, Scheduled, ReturnedNames, InputNames, Unmet, NoUnallocatedUse;
    UsesAreInputs(g);
    var signatures := Signatures(g);
    if NoUnallocatedUse(g) {
      forall k | 0 <= k < |signatures|
        ensures signatures[k].inputs <= Available(g, signatures, k)
      {
        InputsAvailable(g, k);
      }
    }
    if RunsThrough(g, signatures) {
      forall k, n | 0 <= k < |g.partitions| && n in InputNames(g, g.partitions[k])
        ensures !DefinedUnallocated(g, n)
      {
        if n in NodeNames(g) {
          assert n in signatures[k].inputs;
          AvailableIsDeliverable(g, k, n);
        }
      }
    }
  }

  /** Graph outputs that some partition defines, or that are graph inputs, are available at the end. */
  lemma GraphOutputsSurvive(g: Graph, n: string)
    requires WellFormed(g) && n in g.outputs && n in NodeNames(g) && Deliverable(g, n)
    ensures n in Available(g, Signatures(g), |g.partitions|)
  {
    hide IsNoneLayout, InputNames, LastUsesAreLast, RealNamesOnly, Scheduled;
    NeededIsAvailable(g, |g.partitions|, n);
  }

  /**
    The condition is not idle: a buffer without layout that is last used by a later partition is
    asked for as an input although nothing ever returns it.
   */
  function UnallocatedLastUse(): Graph {
    Graph({"x"}, {"y"}, {}, map["t" := Buffer(true, false), "y" := Buffer(false, false)], map[],
          [[Node({"t"}, {"x", "t"}, {})], [Node({"y"}, {"x", "y"}, {"t"})]])
  }

  lemma UnallocatedLastUseFails()
    ensures WellFormed(UnallocatedLastUse()) && !RunsThrough(UnallocatedLastUse(), Signatures(UnallocatedLastUse()))
  {
    var g := UnallocatedLastUse();
    var p, q := g.partitions[0], g.partitions[1];
    assert Outputs(p) == {"t"} && LastUsage(p) == {} && Accesses(p) == {"x", "t"};
    assert Outputs(q) == {"y"} && LastUsage(q) == {"t"} && Accesses(q) == {"x", "y"};
    assert Defined(g, 0) == {"x"} && Defined(g, 1) == {"x", "t"} && NodeNames(g) == {"x", "t", "y"};
    assert InputNames(g, p) == {"x"} && InputNames(g, q) == {"x", "t"};
    SignaturesRunThrough(g);
  }
}
