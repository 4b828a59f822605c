/**
  What a whole history of the registry says about the row it evicts.

  The order in which requests were bound is read off the operations alone.  The stamps the registry
  keeps agree with it after every history, so the request that loses its row is the one outside the
  batch that was bound longest ago.
 */
module RegistryHistory {
  import opened Options
  import opened ResidentRegistry

  datatype Operation = Binds(ids: seq<string>, sigs: seq<Signature>) | Releases(ids: seq<string>) | Invalidates(ids: seq<string>)

  /** A batch the registry does not refuse. */
  predicate Fits(maxStates: nat, ids: seq<string>, sigs: seq<Signature>) {
    |ids| == |sigs| <= maxStates
  }

  function Apply(r: Registry, op: Operation): (r': Registry)
    requires Valid(r)
    ensures Valid(r') && |r'.owner| == |r.owner|
  {
    match op
    case Releases(ids) => Release(r, ids)
    case Invalidates(ids) => Invalidate(r, ids)
    case Binds(ids, sigs) =>
      var o := Bind(r, ids, sigs);
      if o.BoundAll? then o.bound.registry else r
  }

  /** The registry after the operations `ops`, from its construction. */
  function After(maxStates: nat, ops: seq<Operation>): (r: Registry)
    ensures Valid(r) && |r.owner| == maxStates
  {
    if ops == [] then Fresh(maxStates) else Apply(After(maxStates, ops[..|ops| - 1]), ops[|ops| - 1])
  }

  /** The requests bound by the operations, in order. */
  function BoundBy(maxStates: nat, ops: seq<Operation>): seq<string> {
    if ops == [] then []
    else
      var op := ops[|ops| - 1];
      BoundBy(maxStates, ops[..|ops| - 1]) + if op.Binds? && Fits(maxStates, op.ids, op.sigs) then op.ids else []
  }

  /** One past the last position of `q` among the bound requests; 0 when it was never bound. */
  function LastBind(bound: seq<string>, q: string): (last: nat)
    ensures last <= |bound|
    ensures last == 0 <==> q !in bound
    ensures last > 0 ==> bound[last - 1] == q
    ensures forall i :: last <= i < |bound| ==> bound[i] != q
  {
    if bound == [] then 0
    else if bound[|bound| - 1] == q then |bound|
    else LastBind(bound[..|bound| - 1], q)
  }

  lemma LastBindGrows(bound: seq<string>, p: string, q: string)
    ensures LastBind(bound + [p], q) == if p == q then |bound| + 1 else LastBind(bound, q)
  {
    assert (bound + [p])[..|bound|] == bound;
  }

  lemma {:induction false} LastBindOutside(bound: seq<string>, more: seq<string>, q: string)
    requires q !in more
    ensures LastBind(bound + more, q) == LastBind(bound, q)
  {
    if more == [] {
      assert bound + more == bound;
    } else {
      var front := more[..|more| - 1];
      LastBindOutside(bound, front, q);
      assert bound + more == bound + front + [more[|more| - 1]];
      LastBindGrows(bound + front, more[|more| - 1], q);
    }
  }

  // ----- The stamps are the last binds

  /** The row of each bound request is stamped with the request's last bind. */
  ghost predicate Stamped(r: Registry, bound: seq<string>) {
    && Valid(r) && r.clock == |bound|
    && (forall q :: q in r.rowOf ==> q in bound && r.lastUsed[r.rowOf[q]] == LastBind(bound, q))
  }

  lemma TouchedStamp(r: Registry, q: string, sig: Signature)
    requires Valid(r) && q in r.rowOf
    ensures var after := Touch(r, q, sig);
            && after.clock == r.clock + 1
            && forall p :: p in r.rowOf ==> after.lastUsed[r.rowOf[p]] == if p == q then r.clock + 1 else r.lastUsed[r.rowOf[p]]
  {
  }

  lemma TouchStamps(r: Registry, bound: seq<string>, q: string, sig: Signature)
    requires Valid(r) && r.clock == |bound| && q in r.rowOf
    requires forall p :: p in r.rowOf && p != q ==> p in bound && r.lastUsed[r.rowOf[p]] == LastBind(bound, p)
    ensures Stamped(Touch(r, q, sig), bound + [q])
  {
    hide LastBind, Touch;
    var after := Touch(r, q, sig);
    TouchedStamp(r, q, sig);
    assert |bound + [q]| == |bound| + 1;
    forall p | p in after.rowOf
      ensures p in bound + [q] && after.lastUsed[after.rowOf[p]] == LastBind(bound + [q], p)
    {
      LastBindGrows(bound, q, p);
    }
  }

  lemma AllocateStamps(r: Registry, bound: seq<string>, q: string, s: nat)
    requires Stamped(r, bound) && q !in r.rowOf && s < |r.owner|
    ensures var after := Allocate(r, q, s);
            && after.clock == |bound|
            && forall p :: p in after.rowOf && p != q ==> p in bound && after.lastUsed[after.rowOf[p]] == LastBind(bound, p)
  {
    hide LastBind;
  }

  lemma BindOneStamps(r: Registry, bound: seq<string>, q: string, sig: Signature, protected: set<string>)
    requires Stamped(r, bound) && BindOne(r, q, sig, protected).Some?
    ensures Stamped(BindOne(r, q, sig, protected).value, bound + [q])
  {
    hide Touch, Allocate, ChooseRow, LastBind;
    if q in r.rowOf {
      TouchStamps(r, bound, q, sig);
    } else {
      var s := ChooseRow(r, protected).value;
      AllocateStamps(r, bound, q, s);
      TouchStamps(Allocate(r, q, s), bound, q, sig);
    }
  }

  lemma {:induction false} ReleaseStamps(r: Registry, bound: seq<string>, ids: seq<string>)
    requires Stamped(r, bound)
    ensures Stamped(Release(r, ids), bound)
  {
    hide LastBind;
    if ids != [] {
      ReleaseStamps(r, bound, ids[..|ids| - 1]);
    }
  }

  lemma {:induction false} InvalidateStamps(r: Registry, bound: seq<string>, ids: seq<string>)
    requires Stamped(r, bound)
    ensures Stamped(Invalidate(r, ids), bound)
  {
    hide LastBind;
    if ids != [] {
      InvalidateStamps(r, bound, ids[..|ids| - 1]);
    }
  }

  /** Different requests have different last binds. */
  lemma LastBindsDiffer(bound: seq<string>, p: string, q: string)
    requires p in bound && p != q
    ensures LastBind(bound, p) != LastBind(bound, q)
  {
  }

  // ----- One request: at most one owner goes, and it is the one bound longest ago

  ghost predicate Outside(r: Registry, protected: set<string>, q: string) {
    q in r.rowOf && q !in protected
  }

  /** What a request's binding did to the other requests. */
  ghost predicate FairStep(r: Registry, r': Registry, bound: seq<string>, q: string, protected: set<string>) {
    && |r'.owner| == |r.owner| && (forall s :: 0 <= s < |r.owner| && r.owner[s].Some? ==> r'.owner[s].Some?)
    && (forall p :: p in r'.rowOf ==> p == q || p in r.rowOf)
    && (forall p :: p in r'.rowOf && p in r.rowOf ==> r'.rowOf[p] == r.rowOf[p])
    && (forall p :: p in r.rowOf && p !in r'.rowOf ==>
          && p !in protected
          && (forall s :: 0 <= s < |r'.owner| ==> r'.owner[s].Some?)
          && (forall u :: Outside(r', protected, u) ==> LastBind(bound, p) < LastBind(bound, u)))
  }

  lemma ChosenIsOldest(r: Registry, bound: seq<string>, protected: set<string>, p: string, u: string)
    requires Stamped(r, bound) && ChooseRow(r, protected).Some?
    requires p in r.rowOf && r.rowOf[p] == ChooseRow(r, protected).value
    requires Outside(r, protected, u) && u != p
    ensures LastBind(bound, p) < LastBind(bound, u)
  {
    hide LastBind;
    assert Evictable(r.owner, protected, r.rowOf[u]);
    LastBindsDiffer(bound, p, u);
  }

  lemma AllocateRows(r: Registry, q: string, s: nat, p: string)
    requires Valid(r) && q !in r.rowOf && s < |r.owner| && p != q
    ensures var after := Allocate(r, q, s);
            && (p in after.rowOf <==> p in r.rowOf && r.rowOf[p] != s)
            && (p in after.rowOf ==> after.rowOf[p] == r.rowOf[p])
  {
  }

  lemma OnlyFullRowsEvict(r: Registry, q: string, protected: set<string>)
    requires Valid(r) && q !in r.rowOf && ChooseRow(r, protected).Some?
    ensures var s := ChooseRow(r, protected).value;
            r.owner[s].Some? ==>
              r.owner[s].value !in protected && forall i :: 0 <= i < |r.owner| ==> Allocate(r, q, s).owner[i].Some?
  {
  }

  lemma AllocateIsFair(r: Registry, bound: seq<string>, q: string, protected: set<string>)
    requires Stamped(r, bound) && q !in r.rowOf && q in protected && ChooseRow(r, protected).Some?
    ensures FairStep(r, Allocate(r, q, ChooseRow(r, protected).value), bound, q, protected)
  {
    hide LastBind, ChooseRow;
    var s := ChooseRow(r, protected).value;
    var after := Allocate(r, q, s);
    forall p | p != q
      ensures p in after.rowOf <==> p in r.rowOf && r.rowOf[p] != s
      ensures p in after.rowOf ==> after.rowOf[p] == r.rowOf[p]
    {
      AllocateRows(r, q, s, p);
    }
    OnlyFullRowsEvict(r, q, protected);
    forall p, u | p in r.rowOf && p !in after.rowOf && Outside(after, protected, u)
      ensures LastBind(bound, p) < LastBind(bound, u)
    {
      ChosenIsOldest(r, bound, protected, p, u);
    }
  }

  lemma BindOneIsFair(r: Registry, bound: seq<string>, q: string, sig: Signature, protected: set<string>)
    requires Stamped(r, bound) && q in protected && BindOne(r, q, sig, protected).Some?
    ensures FairStep(r, BindOne(r, q, sig, protected).value, bound, q, protected)
  {
    hide LastBind, ChooseRow, Allocate;
    if q !in r.rowOf {
      AllocateIsFair(r, bound, q, protected);
    }
  }

  // ----- A batch

  /** What a batch did to the requests outside it. */
  ghost predicate FairBatch(r: Registry, r': Registry, bound: seq<string>, protected: set<string>) {
    && (forall p :: p in r'.rowOf ==> p in protected || p in r.rowOf)
    && (forall p :: p in r'.rowOf && p in r.rowOf ==> r'.rowOf[p] == r.rowOf[p])
    && (forall p :: p in r.rowOf && p !in r'.rowOf ==>
          && p !in protected
          && (forall s :: 0 <= s < |r'.owner| ==> r'.owner[s].Some?)
          && (forall u :: Outside(r', protected, u) ==> LastBind(bound, p) < LastBind(bound, u)))
  }

  lemma FairStepExtends(r: Registry, earlier: Registry, after: Registry, bound: seq<string>, done: seq<string>, q: string, protected: set<string>)
    requires FairBatch(r, earlier, bound, protected)
    requires q in protected && forall p :: p in done ==> p in protected
    requires FairStep(earlier, after, bound + done, q, protected)
    ensures FairBatch(r, after, bound, protected)
  {
    hide LastBind;
    forall p, u | p in earlier.rowOf && p !in after.rowOf && Outside(after, protected, u)
      ensures LastBind(bound, p) < LastBind(bound, u)
    {
      LastBindOutside(bound, done, p);
      LastBindOutside(bound, done, u);
    }
  }

  lemma {:induction false} BatchIsFair(r: Registry, bound: seq<string>, ids: seq<string>, sigs: seq<Signature>, upTo: nat)
    requires Stamped(r, bound) && upTo <= |ids| == |sigs|
    requires BindUpTo(r, ids, sigs, (set q | q in ids), upTo).Some?
    ensures var after := BindUpTo(r, ids, sigs, (set q | q in ids), upTo).value.registry;
            Stamped(after, bound + ids[..upTo]) && FairBatch(r, after, bound, (set q | q in ids))
  {
    hide LastBind, BindOne, FairStep, Stamped, Valid;
    StampedIsValid(r, bound);
    var protected := set q | q in ids;
    if upTo == 0 {
      assert bound + ids[..0] == bound;
    } else {
      var earlier := BindUpTo(r, ids, sigs, protected, upTo - 1).value.registry;
      var q, sig, sofar := ids[upTo - 1], sigs[upTo - 1], bound + ids[..upTo - 1];
      BatchIsFair(r, bound, ids, sigs, upTo - 1);
      BindOneStamps(earlier, sofar, q, sig, protected);
      BindOneIsFair(earlier, sofar, q, sig, protected);
      assert sofar + [q] == bound + ids[..upTo];
      FairStepExtends(r, earlier, BindOne(earlier, q, sig, protected).value, bound, ids[..upTo - 1], q, protected);
    }
  }

  lemma StampedIsValid(r: Registry, bound: seq<string>)
    requires Stamped(r, bound)
    ensures Valid(r)
  {
  }

  /** A batch is bound exactly when it passes the two checks on entry, repeated requests included. */
  lemma {:induction false} BindSucceeds(r: Registry, ids: seq<string>, sigs: seq<Signature>, upTo: nat)
    requires Valid(r) && upTo <= |ids| == |sigs| <= |r.owner|
    ensures BindUpTo(r, ids, sigs, (set q | q in ids), upTo).Some?
  {
    hide Valid, BindOne, Advances, HoldsRow;
    if upTo > 0 {
      BindSucceeds(r, ids, sigs, upTo - 1);
      DistinctAtMost(ids);
      var earlier := BindUpTo(r, ids, sigs, (set q | q in ids), upTo - 1).value.registry;
      BindOneFacts(earlier, ids[upTo - 1], sigs[upTo - 1], (set q | q in ids));
    }
  }

  // ----- Every history

  /** After every history, the row of each bound request is stamped with its last bind. */
  lemma {:induction false} StampsAreLastBinds(maxStates: nat, ops: seq<Operation>)
    ensures Stamped(After(maxStates, ops), BoundBy(maxStates, ops))
  {
    hide LastBind, Stamped, BindUpTo;
    if ops == [] {
      FreshIsStamped(maxStates);
    } else {
      var op, r := ops[|ops| - 1], After(maxStates, ops[..|ops| - 1]);
      var bound := BoundBy(maxStates, ops[..|ops| - 1]);
      StampsAreLastBinds(maxStates, ops[..|ops| - 1]);
      assert bound + [] == bound;
      match op {
        case Releases(ids) => ReleaseStamps(r, bound, ids);
        case Invalidates(ids) => InvalidateStamps(r, bound, ids);
        case Binds(ids, sigs) =>
          if Fits(maxStates, ids, sigs) {
            BindSucceeds(r, ids, sigs, |ids|);
            BatchIsFair(r, bound, ids, sigs, |ids|);
            assert ids[..|ids|] == ids;
          }
      }
    }
  }

  lemma FreshIsStamped(maxStates: nat)
    ensures Stamped(Fresh(maxStates), [])
  {
  }

  /**
    After every history, a batch is bound unless it is refused on entry.  It takes a row from a
    request only when every row is taken, that request is outside the batch, and every request
    outside the batch that keeps its row was bound more recently.  Nobody else moves.
   */
  lemma EvictsLeastRecentlyBound(maxStates: nat, ops: seq<Operation>, ids: seq<string>, sigs: seq<Signature>)
    requires Fits(maxStates, ids, sigs)
    ensures var r, r' := After(maxStates, ops), After(maxStates, ops + [Binds(ids, sigs)]);
            var bound := BoundBy(maxStates, ops);
            && (forall q :: q in ids ==> q in r'.rowOf)
            && (forall p :: p in r'.rowOf ==> p in ids || p in r.rowOf)
            && (forall p :: p in r'.rowOf && p in r.rowOf ==> r'.rowOf[p] == r.rowOf[p])
            && (forall p :: p in r.rowOf && p !in r'.rowOf ==>
                  && p !in ids
                  && (forall s :: 0 <= s < maxStates ==> r'.owner[s].Some?)
                  && (forall u :: u in r'.rowOf && u !in ids ==> LastBind(bound, p) < LastBind(bound, u)))
  {
    hide LastBind, Stamped, BindUpTo, Valid;
    var r, bound := After(maxStates, ops), BoundBy(maxStates, ops);
    var protected := set q | q in ids;
    assert (ops + [Binds(ids, sigs)])[..|ops|] == ops;
    StampsAreLastBinds(maxStates, ops);
    BindSucceeds(r, ids, sigs, |ids|);
    BatchIsFair(r, bound, ids, sigs, |ids|);
    BatchIsBound(r, ids, sigs, |ids|);
    var after := BindUpTo(r, ids, sigs, protected, |ids|).value.registry;
    assert forall u :: u in after.rowOf && u !in ids ==> Outside(after, protected, u);
  }

  lemma {:induction false} BatchIsBound(r: Registry, ids: seq<string>, sigs: seq<Signature>, upTo: nat)
    requires Valid(r) && upTo <= |ids| == |sigs|
    requires BindUpTo(r, ids, sigs, (set q | q in ids), upTo).Some?
    ensures forall i :: 0 <= i < upTo ==> ids[i] in BindUpTo(r, ids, sigs, (set q | q in ids), upTo).value.registry.rowOf
  {
    hide Valid, BindOne;
    if upTo > 0 {
      var protected := set q | q in ids;
      var earlier := BindUpTo(r, ids, sigs, protected, upTo - 1).value.registry;
      BatchIsBound(r, ids, sigs, upTo - 1);
      forall i | 0 <= i < upTo - 1
        ensures ids[i] in BindOne(earlier, ids[upTo - 1], sigs[upTo - 1], protected).value.rowOf
      {
        ProtectedStays(earlier, ids[upTo - 1], sigs[upTo - 1], protected, ids[i]);
      }
    }
  }

  lemma ProtectedStays(r: Registry, q: string, sig: Signature, protected: set<string>, p: string)
    requires Valid(r) && BindOne(r, q, sig, protected).Some?
    requires p in r.rowOf && p in protected
    ensures p in BindOne(r, q, sig, protected).value.rowOf
  {
    hide ChooseRow;
    if q !in r.rowOf && p != q {
      AllocateRows(r, q, ChooseRow(r, protected).value, p);
    }
  }

  // ----- Generations, exactly

  /** Binding adds 2 to the generation of a row newly given, 1 on other blocks, 0 on the same ones; no other row is touched. */
  lemma BindOneGenerations(r: Registry, q: string, sig: Signature, protected: set<string>)
    requires Valid(r) && BindOne(r, q, sig, protected).Some?
    ensures var r' := BindOne(r, q, sig, protected).value;
            && r'.generation[r'.rowOf[q]] == r.generation[r'.rowOf[q]]
               + (if q !in r.rowOf then 2 else if r.signature[r.rowOf[q]] == Some(sig) then 0 else 1)
            && (forall s :: 0 <= s < |r.owner| && s != r'.rowOf[q] ==>
                  r'.generation[s] == r.generation[s] && r'.signature[s] == r.signature[s] && r'.owner[s] == r.owner[s])
  {
    hide ChooseRow;
  }
}
