/** The backward pass as the loop that computes the signatures. */
module PartitionPass {
  import opened PartitionSignatures

  method Summaries(p: Partition) returns (outputs: set<string>, accesses: set<string>, lastUsage: set<string>)
    ensures outputs == Outputs(p) && accesses == Accesses(p) && lastUsage == LastUsage(p)
  {
    outputs, accesses, lastUsage := {}, {}, {};
    for i := 0 to |p|
      invariant outputs == OutputsUpTo(p, i) && accesses == AccessesUpTo(p, i) && lastUsage == LastUsageUpTo(p, i)
    {
      outputs := outputs + p[i].outputs;
      accesses := accesses + p[i].accesses;
      lastUsage := lastUsage + p[i].lastUsage;
    }
  }

  /** One step of the pass: the signature of a partition and the names needed before it. */
  method SignPartition(g: Graph, p: Partition, unmet: set<string>) returns (signature: Signature, before: set<string>)
    requires Resolved(g)
    ensures signature == SignatureOf(g, p, unmet) && before == UnmetBefore(g, p, unmet)
  {
    var nodes := NodeNames(g);
    var outputs, accesses, lastUsage := Summaries(p);
    var returned := outputs * unmet;
    var inputs := (set n | n in accesses && !IsNoneLayout(g, n)) - outputs;
    inputs := set n | n in inputs :: Real(g, n);
    inputs := inputs + set n | n in lastUsage - outputs && n in nodes;
    assert inputs == InputNames(g, p);
    var taken := set n | n in inputs && n in nodes;
    var freed := set n | n in inputs && n in nodes && n in lastUsage;
    returned := returned + set n | n in inputs && n in nodes && n !in lastUsage;
    returned := set n | n in returned :: Real(g, n);
    assert returned == ReturnedNames(g, p, unmet);
    signature := Signature(taken, (set n | n in returned && !IsNoneLayout(g, n)), freed,
                           (set n | n in inputs && n in g.constants));
    before := inputs + (unmet - returned);
  }

  method ComputeSignatures(g: Graph) returns (signatures: seq<Signature>)
    requires Resolved(g)
    ensures signatures == Signatures(g)
  {
    hide SignatureOf, UnmetBefore, Outputs, Accesses, LastUsage;
    var n := |g.partitions|;
    var unmet := g.outputs;
    var backwards: seq<Signature> := [];
    for i := 0 to n
      invariant unmet == Unmet(g, n - i)
      invariant |backwards| == i
      invariant forall j :: 0 <= j < i ==> backwards[j] == SignatureAt(g, n - 1 - j)
    {
      var signature;
      signature, unmet := SignPartition(g, g.partitions[n - 1 - i], unmet);
      backwards := backwards + [signature];
    }
    signatures := seq(n, k requires 0 <= k < n => backwards[n - 1 - k]);
  }
}
