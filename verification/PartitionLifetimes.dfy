/**
  Exactly which buffers are available after each partition.

  The backward pass decides what each partition returns and frees.  Judged by the forward run, a
  buffer appears when it is defined and somebody still needs it, and goes when it is used last.
 */
module PartitionLifetimes {
  import opened PartitionSignatures

  /** A graph output, or an input of a partition from `k` on. */
  ghost predicate Needed(g: Graph, k: nat, n: string)
    requires Resolved(g)
  {
    n in g.outputs || exists j :: k <= j < |g.partitions| && n in InputNames(g, g.partitions[j])
  }

  /** A graph input, or defined by one of the first `k` partitions for somebody after it. */
  ghost predicate Made(g: Graph, k: nat, n: string)
    requires Resolved(g) && k <= |g.partitions|
  {
    n in g.inputs || exists j :: 0 <= j < k && n in Outputs(g.partitions[j]) && Needed(g, j + 1, n)
  }

  /** Some node of the first `k` partitions uses the buffer last. */
  ghost predicate UsedUp(g: Graph, k: nat, n: string)
    requires k <= |g.partitions|
  {
    exists j :: 0 <= j < k && n in LastUsage(g.partitions[j])
  }

  // ----- The two sides of a signature

  lemma NeverDefinedTwice(g: Graph, k: nat, n: string)
    requires WellFormed(g) && k < |g.partitions| && n in Defined(g, k)
    ensures n !in Outputs(g.partitions[k])
  {
    hide InputNames, Outputs, LastUsesAreLast, RealNamesOnly;
  }

  lemma DefinedByPartition(g: Graph, k: nat, n: string)
    requires k < |g.partitions| && n in Outputs(g.partitions[k])
    ensures n in Defined(g, k + 1)
  {
  }

  lemma {:induction false} NeededIsUnmet(g: Graph, k: nat, n: string)
    requires WellFormed(g) && k <= |g.partitions| && n in Defined(g, k)
    ensures n in Unmet(g, k) <==> Needed(g, k, n)
    decreases |g.partitions| - k
  {
    hide IsNoneLayout, InputNames, ReturnedNames, LastUsesAreLast, RealNamesOnly, Outputs, Scheduled, Defined;
    if n in Unmet(g, k) {
      UnmetMeaning(g, k, n);
    }
    if k < |g.partitions| && n !in InputNames(g, g.partitions[k]) {
      DefinedGrows(g, k, k + 1);
      NeededIsUnmet(g, k + 1, n);
      NeverDefinedTwice(g, k, n);
      if n in ReturnedNames(g, g.partitions[k], Unmet(g, k + 1)) {
        ReturnedMeaning(g, k, n);
      }
    }
  }

  /** A partition frees what it uses last and did not define itself. */
  lemma FreedMeaning(g: Graph, k: nat, n: string)
    requires WellFormed(g) && k < |g.partitions|
    ensures n in SignatureAt(g, k).freed
            <==> n in LastUsage(g.partitions[k]) && n !in Outputs(g.partitions[k]) && n in NodeNames(g)
  {
    hide IsNoneLayout, Outputs, Accesses, LastUsage, LastUsesAreLast, RealNamesOnly, NodeNames, Defined, Unmet;
    if n in InputNames(g, g.partitions[k]) && n in NodeNames(g) {
      InputDefinedEarlier(g, k, n);
    }
  }

  /** A partition returns, when allocated, what it defined for somebody after it and what it took and keeps. */
  lemma ReturnedExactly(g: Graph, k: nat, n: string)
    requires WellFormed(g) && k < |g.partitions|
    ensures n in SignatureAt(g, k).outputs <==>
              !IsNoneLayout(g, n) && (if n in Outputs(g.partitions[k]) then Needed(g, k + 1, n)
                                      else n in SignatureAt(g, k).inputs && n !in LastUsage(g.partitions[k]))
  {
    hide IsNoneLayout, InputNames, Accesses, LastUsage, Outputs, LastUsesAreLast, RealNamesOnly, Scheduled, Unmet, Needed;
    var p := g.partitions[k];
    if n in ReturnedNames(g, p, Unmet(g, k + 1)) {
      ReturnedMeaning(g, k, n);
      ReturnedNamesHaveNodes(g, k, n);
    }
    if n in InputNames(g, p) && n in NodeNames(g) {
      InputDefinedEarlier(g, k, n);
      InputIsReal(g, k, n);
      assert Real(g, n) == n;
    }
    if n in Outputs(p) {
      NeededIsUnmet(g, k + 1, n);
      if n in Unmet(g, k + 1) {
        UnmetMeaning(g, k + 1, n);
        assert Real(g, n) == n;
      }
    }
  }

  // ----- Before a buffer is defined

  lemma NotYetDefined(g: Graph, k: nat, n: string)
    requires WellFormed(g) && k < |g.partitions| && n in Outputs(g.partitions[k])
    ensures !Made(g, k, n) && !UsedUp(g, k, n)
  {
    hide IsNoneLayout, InputNames, Outputs, LastUsage, LastUsesAreLast, RealNamesOnly, Needed, Scheduled, Defined, Resolved;
    DefinedOnce(g, k, n);
    forall j | 0 <= j < k
      ensures n !in Outputs(g.partitions[j]) && n !in LastUsage(g.partitions[j])
    {
      NotYetTouched(g, j, k, n);
    }
  }

  lemma NotYetTouched(g: Graph, j: nat, k: nat, n: string)
    requires WellFormed(g) && j < k < |g.partitions| && n in Outputs(g.partitions[k])
    ensures n !in Outputs(g.partitions[j]) && n !in LastUsage(g.partitions[j])
  {
    hide IsNoneLayout, InputNames, Outputs, LastUsage, LastUsesAreLast, RealNamesOnly, Scheduled, Defined, Resolved;
    if n in Outputs(g.partitions[j]) || n in LastUsage(g.partitions[j]) {
      DefinedByPartition(g, k, n);
      DefinedGrows(g, k + 1, |g.partitions|);
      LastUseIsDefined(g, j, n);
      DefinedGrows(g, j + 1, k);
      NeverDefinedTwice(g, k, n);
    }
  }

  lemma LastUseIsDefined(g: Graph, k: nat, n: string)
    requires WellFormed(g) && k < |g.partitions| && n in NodeNames(g)
    requires n in LastUsage(g.partitions[k]) || n in Outputs(g.partitions[k])
    ensures n in Defined(g, k + 1)
  {
    hide IsNoneLayout, Outputs, Accesses, LastUsage, LastUsesAreLast, RealNamesOnly;
    if n !in Outputs(g.partitions[k]) {
      assert n in InputNames(g, g.partitions[k]);
    }
  }

  lemma UsedUpIsNotNeeded(g: Graph, k: nat, n: string)
    requires WellFormed(g) && k < |g.partitions| && n in LastUsage(g.partitions[k])
    ensures !Needed(g, k + 1, n)
  {
    hide InputNames, LastUsage;
  }

  lemma MadeIsNode(g: Graph, k: nat, n: string)
    requires Resolved(g) && k <= |g.partitions| && Made(g, k, n)
    ensures n in NodeNames(g)
  {
    hide Needed, Outputs;
    DefinedGrows(g, 0, |g.partitions|);
    if n !in g.inputs {
      var j :| 0 <= j < k && n in Outputs(g.partitions[j]);
      DefinedGrows(g, j + 1, |g.partitions|);
    }
  }

  // ----- The run

  lemma RunStep(g: Graph, k: nat, n: string)
    requires Resolved(g) && k < |g.partitions|
    ensures n in Available(g, Signatures(g), k + 1) <==>
              || n in SignatureAt(g, k).outputs
              || (n in Available(g, Signatures(g), k) && n !in SignatureAt(g, k).freed)
  {
    hide SignatureAt;
  }

  lemma DefinedHere(g: Graph, k: nat, n: string)
    requires WellFormed(g) && k < |g.partitions| && n in Outputs(g.partitions[k])
    requires n !in Available(g, Signatures(g), k)
    ensures n in Available(g, Signatures(g), k + 1) <==> Deliverable(g, n) && Made(g, k + 1, n) && !UsedUp(g, k + 1, n)
  {
    hide Scheduled, LastUsesAreLast, RealNamesOnly, Resolved, IsNoneLayout, InputNames, Outputs, LastUsage, Available, SignatureAt, Needed;
    RunStep(g, k, n);
    ReturnedExactly(g, k, n);
    NotYetDefined(g, k, n);
    if n in LastUsage(g.partitions[k]) {
      UsedUpIsNotNeeded(g, k, n);
    }
  }

  lemma DefinedElsewhere(g: Graph, k: nat, n: string)
    requires WellFormed(g) && k < |g.partitions| && n !in Outputs(g.partitions[k])
    requires n in Available(g, Signatures(g), k) <==> Deliverable(g, n) && Made(g, k, n) && !UsedUp(g, k, n)
    ensures n in Available(g, Signatures(g), k + 1) <==> Deliverable(g, n) && Made(g, k + 1, n) && !UsedUp(g, k + 1, n)
  {
    hide Scheduled, LastUsesAreLast, RealNamesOnly, Resolved, IsNoneLayout, InputNames, Outputs, LastUsage, Available, SignatureAt, Needed, NodeNames;
    RunStep(g, k, n);
    ReturnedExactly(g, k, n);
    FreedMeaning(g, k, n);
    if n in Available(g, Signatures(g), k) {
      MadeIsNode(g, k, n);
    } else if n in SignatureAt(g, k).outputs {
      KeptWasAvailable(g, k, n);
    }
  }

  lemma KeptWasAvailable(g: Graph, k: nat, n: string)
    requires WellFormed(g) && k < |g.partitions| && n in SignatureAt(g, k).inputs && !IsNoneLayout(g, n)
    ensures n in Available(g, Signatures(g), k)
  {
    hide IsNoneLayout, InputNames, ReturnedNames, LastUsesAreLast, RealNamesOnly, Scheduled;
    InputDefinedEarlier(g, k, n);
    NeededIsAvailable(g, k, n);
  }

  /**
    After `k` partitions exactly these buffers are available: the deliverable ones that are graph
    inputs or were defined for somebody later, and that no node so far used last.
   */
  lemma {:induction false} AvailableExactly(g: Graph, k: nat, n: string)
    requires WellFormed(g) && k <= |g.partitions|
    ensures n in Available(g, Signatures(g), k) <==> Deliverable(g, n) && Made(g, k, n) && !UsedUp(g, k, n)
  {
    hide Scheduled, LastUsesAreLast, RealNamesOnly, Resolved, IsNoneLayout, InputNames, Outputs, LastUsage, SignatureAt, Needed;
    if k > 0 {
      AvailableExactly(g, k - 1, n);
      if n in Outputs(g.partitions[k - 1]) {
        NotYetDefined(g, k - 1, n);
        DefinedHere(g, k - 1, n);
      } else {
        DefinedElsewhere(g, k - 1, n);
      }
    }
  }

  /** What a partition uses last is gone after it, and nothing else goes. */
  lemma GoneAfterLastUse(g: Graph, k: nat, n: string)
    requires WellFormed(g) && k < |g.partitions|
    ensures n in LastUsage(g.partitions[k]) ==> n !in Available(g, Signatures(g), k + 1)
    ensures n in Available(g, Signatures(g), k) && n !in Available(g, Signatures(g), k + 1)
            ==> n in LastUsage(g.partitions[k])
  {
    hide Scheduled, LastUsesAreLast, RealNamesOnly, Resolved, IsNoneLayout, Outputs, LastUsage, Available, Needed;
    AvailableExactly(g, k, n);
    AvailableExactly(g, k + 1, n);
  }

  // ----- Names

  ghost predicate WithoutLayout(g: Graph, n: string) {
    n in g.buffers && g.buffers[n].noneLayout
  }

  /** A buffer is unallocated exactly when it has no layout and, if it is the output of a mutation, what it mutates has none either. */
  lemma UnallocatedExactly(g: Graph, n: string)
    requires Resolved(g)
    ensures IsNoneLayout(g, n) <==>
              WithoutLayout(g, n) && (g.buffers[n].mutation && n in g.realName ==> WithoutLayout(g, Real(g, n)))
  {
  }

  /** Some node of the partition defines the buffer, or uses it last. */
  ghost predicate Defines(p: Partition, n: string) {
    exists i :: 0 <= i < |p| && n in p[i].outputs
  }

  ghost predicate UsesLast(p: Partition, n: string) {
    exists i :: 0 <= i < |p| && n in p[i].lastUsage
  }

  /** Some node reads or writes the buffer, under its own or a mutation name that is allocated and comes from outside. */
  ghost predicate Touches(g: Graph, p: Partition, n: string)
    requires Resolved(g)
  {
    exists i, m :: 0 <= i < |p| && m in p[i].accesses && !Defines(p, m) && !IsNoneLayout(g, m) && Real(g, m) == n
  }

  /** What a partition takes, and the constants it lists, node by node. */
  lemma TakenExactly(g: Graph, k: nat, n: string)
    requires Resolved(g) && k < |g.partitions|
    ensures var p := g.partitions[k];
            var taken := Touches(g, p, n) || (n in NodeNames(g) && UsesLast(p, n) && !Defines(p, n));
            && (n in SignatureAt(g, k).inputs <==> n in NodeNames(g) && taken)
            && (n in SignatureAt(g, k).constants <==> n in g.constants && taken)
  {
    hide IsNoneLayout, Outputs, LastUsage, Accesses, NodeNames, Unmet, Real, ReturnedNames, Defines, UsesLast;
    var p := g.partitions[k];
    NodeByNode(p);
  }

  lemma NodeByNode(p: Partition)
    ensures forall n :: n in Outputs(p) <==> Defines(p, n)
    ensures forall n :: n in LastUsage(p) <==> UsesLast(p, n)
    ensures forall n :: n in Accesses(p) <==> exists i :: 0 <= i < |p| && n in p[i].accesses
  {
    NodesUpTo(p, |p|);
  }

  lemma {:induction false} NodesUpTo(p: Partition, upTo: nat)
    requires upTo <= |p|
    ensures forall n :: n in OutputsUpTo(p, upTo) <==> exists i :: 0 <= i < upTo && n in p[i].outputs
    ensures forall n :: n in LastUsageUpTo(p, upTo) <==> exists i :: 0 <= i < upTo && n in p[i].lastUsage
    ensures forall n :: n in AccessesUpTo(p, upTo) <==> exists i :: 0 <= i < upTo && n in p[i].accesses
  {
    if upTo > 0 {
      NodesUpTo(p, upTo - 1);
    }
  }
}
