/**
  The registry that gives scheduler requests a resident-state row and a generation.

  A row is handed to one request at a time.  The generation of a row grows whenever what the row
  remembers must not be trusted any more: when its request finishes, is made cold, is evicted for
  another request, or comes back with different scratch blocks.
 */
module ResidentRegistry {
  import opened Options
  import opened SortedSets

  /** The scratch blocks of a request, as bound. */
  type Signature = seq<nat>

  datatype Registry = Registry(
    rowOf: map<string, nat>,
    owner: seq<Option<string>>,
    signature: seq<Option<Signature>>,
    generation: seq<nat>,
    lastUsed: seq<nat>,
    clock: nat)

  /** Requests and rows point at each other. */
  ghost predicate Valid(r: Registry) {
    && |r.owner| == |r.signature| == |r.generation| == |r.lastUsed|
    && (forall q :: q in r.rowOf ==> r.rowOf[q] < |r.owner| && r.owner[r.rowOf[q]] == Some(q))
    && (forall s :: 0 <= s < |r.owner| && r.owner[s].Some? ==>
          r.owner[s].value in r.rowOf && r.rowOf[r.owner[s].value] == s)
  }

  function Fresh(maxStates: nat): (r: Registry)
    ensures Valid(r)
  {
    Registry(map[], seq(maxStates, s => None), seq(maxStates, s => None), seq(maxStates, s => 0),
             seq(maxStates, s => 0), 0)
  }

  // ----- The operations as functions

  function ReleaseOne(r: Registry, q: string): (r': Registry)
    requires Valid(r)
    ensures Valid(r') && |r'.owner| == |r.owner|
  {
    if q !in r.rowOf then r
    else
      var s := r.rowOf[q];
      r.(rowOf := r.rowOf - {q}, owner := r.owner[s := None], signature := r.signature[s := None],
         generation := r.generation[s := r.generation[s] + 1])
  }

  function Release(r: Registry, ids: seq<string>): (r': Registry)
    requires Valid(r)
    ensures Valid(r') && |r'.owner| == |r.owner|
  {
    if ids == [] then r else ReleaseOne(Release(r, ids[..|ids| - 1]), ids[|ids| - 1])
  }

  function InvalidateOne(r: Registry, q: string): (r': Registry)
    requires Valid(r)
    ensures Valid(r') && |r'.owner| == |r.owner|
  {
    if q !in r.rowOf then r
    else var s := r.rowOf[q]; r.(generation := r.generation[s := r.generation[s] + 1])
  }

  function Invalidate(r: Registry, ids: seq<string>): (r': Registry)
    requires Valid(r)
    ensures Valid(r') && |r'.owner| == |r.owner|
  {
    if ids == [] then r else InvalidateOne(Invalidate(r, ids[..|ids| - 1]), ids[|ids| - 1])
  }

  /** First row at or after `from` without an owner. */
  function FirstFree(owner: seq<Option<string>>, from: nat): (f: Option<nat>)
    requires from <= |owner|
    ensures f.None? <==> forall s :: from <= s < |owner| ==> owner[s].Some?
    ensures f.Some? ==> from <= f.value < |owner| && owner[f.value].None?
    ensures f.Some? ==> forall s :: from <= s < f.value ==> owner[s].Some?
    decreases |owner| - from
  {
    if from == |owner| then None
    else if owner[from].None? then Some(from)
    else FirstFree(owner, from + 1)
  }

  predicate Evictable(owner: seq<Option<string>>, protected: set<string>, s: nat)
    requires s < |owner|
  {
    owner[s].None? || owner[s].value !in protected
  }

  /** Among the rows below `upTo` not owned by a protected request, the least recently used, first on ties. */
  function LeastRecent(owner: seq<Option<string>>, lastUsed: seq<nat>, protected: set<string>, upTo: nat): (b: Option<nat>)
    requires upTo <= |owner| == |lastUsed|
    ensures b.None? <==> forall s :: 0 <= s < upTo ==> !Evictable(owner, protected, s)
    ensures b.Some? ==>
              && b.value < upTo && Evictable(owner, protected, b.value)
              && (forall s :: 0 <= s < upTo && Evictable(owner, protected, s) ==> lastUsed[b.value] <= lastUsed[s])
              && (forall s :: 0 <= s < b.value && Evictable(owner, protected, s) ==> lastUsed[b.value] < lastUsed[s])
  {
    if upTo == 0 then None
    else
      var best := LeastRecent(owner, lastUsed, protected, upTo - 1);
      if !Evictable(owner, protected, upTo - 1) then best
      else if best.None? || lastUsed[upTo - 1] < lastUsed[best.value] then Some(upTo - 1)
      else best
  }

  /** The row a new request gets: a free one, or the least recently used unprotected one. */
  function ChooseRow(r: Registry, protected: set<string>): (s: Option<nat>)
    requires Valid(r)
    ensures s.Some? ==> s.value < |r.owner| && Evictable(r.owner, protected, s.value)
  {
    var free := FirstFree(r.owner, 0);
    if free.Some? then free else LeastRecent(r.owner, r.lastUsed, protected, |r.owner|)
  }

  function Allocate(r: Registry, q: string, s: nat): (r': Registry)
    requires Valid(r) && q !in r.rowOf && s < |r.owner|
    ensures Valid(r') && |r'.owner| == |r.owner| && q in r'.rowOf && r'.rowOf[q] == s
  {
    var evicted := if r.owner[s].Some? then {r.owner[s].value} else {};
    r.(rowOf := (r.rowOf - evicted)[q := s], owner := r.owner[s := Some(q)],
       signature := r.signature[s := None], generation := r.generation[s := r.generation[s] + 1])
  }

  /** Binding a request that has a row: new scratch blocks start a new generation. */
  function Touch(r: Registry, q: string, sig: Signature): (r': Registry)
    requires Valid(r) && q in r.rowOf
    ensures Valid(r') && |r'.owner| == |r.owner| && r'.rowOf == r.rowOf && r'.owner == r.owner
    ensures r'.signature == r.signature[r.rowOf[q] := Some(sig)]
  {
    var s := r.rowOf[q];
    var same := r.signature[s] == Some(sig);
    r.(signature := r.signature[s := Some(sig)],
       generation := if same then r.generation else r.generation[s := r.generation[s] + 1],
       clock := r.clock + 1, lastUsed := r.lastUsed[s := r.clock + 1])
  }

  function BindOne(r: Registry, q: string, sig: Signature, protected: set<string>): (o: Option<Registry>)
    requires Valid(r)
    ensures o.Some? ==> Valid(o.value) && |o.value.owner| == |r.owner| && q in o.value.rowOf
  {
    if q in r.rowOf then Some(Touch(r, q, sig))
    else
      var s := ChooseRow(r, protected);
      if s.None? then None else Some(Touch(Allocate(r, q, s.value), q, sig))
  }

  datatype Binding = Binding(row: nat, generation: nat)
  datatype Bound = Bound(registry: Registry, bindings: seq<Binding>)

  /** Binds the first `upTo` requests of a batch; `None` when some request finds no row. */
  function BindUpTo(r: Registry, ids: seq<string>, sigs: seq<Signature>, protected: set<string>, upTo: nat): (o: Option<Bound>)
    requires Valid(r) && upTo <= |ids| == |sigs|
    ensures o.Some? ==> Valid(o.value.registry) && |o.value.registry.owner| == |r.owner| && |o.value.bindings| == upTo
  {
    if upTo == 0 then Some(Bound(r, []))
    else
      var earlier := BindUpTo(r, ids, sigs, protected, upTo - 1);
      if earlier.None? then None
      else
        var q := ids[upTo - 1];
        var after := BindOne(earlier.value.registry, q, sigs[upTo - 1], protected);
        if after.None? then None
        else
          var s := after.value.rowOf[q];
          Some(Bound(after.value, earlier.value.bindings + [Binding(s, after.value.generation[s])]))
  }

  datatype BindResult = BoundAll(bound: Bound) | LengthMismatch | TooManyActive | NoEvictableRow

  /** Binding a batch, with the checks made on entry. */
  function Bind(r: Registry, ids: seq<string>, sigs: seq<Signature>): BindResult
    requires Valid(r)
  {
    if |ids| != |sigs| then LengthMismatch
    else if |ids| > |r.owner| then TooManyActive
    else
      var o := BindUpTo(r, ids, sigs, set q | q in ids, |ids|);
      if o.None? then NoEvictableRow else BoundAll(o.value)
  }

  // ----- A batch that fits always finds its rows

  lemma {:induction false} DistinctAtMost(ids: seq<string>)
    ensures |set q | q in ids| <= |ids|
  {
    if ids == [] {
      assert (set q | q in ids) == {};
    } else {
      DistinctAtMost(ids[1..]);
      assert (set q | q in ids) == {ids[0]} + (set q | q in ids[1..]);
    }
  }

  ghost function OwnersUpTo(owner: seq<Option<string>>, upTo: nat): set<string>
    requires upTo <= |owner|
  {
    set s | 0 <= s < upTo && owner[s].Some? :: owner[s].value
  }

  lemma OwnerIsNew(r: Registry, s: nat)
    requires Valid(r) && s < |r.owner| && r.owner[s].Some?
    ensures r.owner[s].value !in OwnersUpTo(r.owner, s)
    ensures OwnersUpTo(r.owner, s + 1) == OwnersUpTo(r.owner, s) + {r.owner[s].value}
  {
    assert forall i :: 0 <= i < s && r.owner[i].Some? ==> r.rowOf[r.owner[i].value] == i;
  }

  lemma {:induction false} OwnersCount(r: Registry, upTo: nat)
    requires Valid(r) && upTo <= |r.owner|
    requires forall s :: 0 <= s < upTo ==> r.owner[s].Some?
    ensures |OwnersUpTo(r.owner, upTo)| == upTo
  {
    hide Valid;
    if upTo > 0 {
      OwnersCount(r, upTo - 1);
      OwnerIsNew(r, upTo - 1);
    } else {
      assert OwnersUpTo(r.owner, upTo) == {};
    }
  }

  /** A protected request without a row finds one while the protected requests fit the rows. */
  lemma RowAvailable(r: Registry, q: string, protected: set<string>)
    requires Valid(r) && q !in r.rowOf && q in protected && |protected| <= |r.owner|
    ensures ChooseRow(r, protected).Some?
  {
    if ChooseRow(r, protected).None? {
      assert forall s :: 0 <= s < |r.owner| ==> !Evictable(r.owner, protected, s);
      OwnersCount(r, |r.owner|);
      var owners := OwnersUpTo(r.owner, |r.owner|);
      forall o | o in owners
        ensures o in protected - {q}
      {
        var s :| 0 <= s < |r.owner| && r.owner[s] == Some(o);
        assert !Evictable(r.owner, protected, s);
      }
      SubsetSize(owners, protected - {q});
    }
  }

  // ----- Generations tell what may still be trusted

  /** A row whose generation has not grown still has the owner and scratch blocks it had. */
  ghost predicate Advances(r: Registry, r': Registry) {
    && Valid(r) && Valid(r') && |r'.owner| == |r.owner|
    && (forall s :: 0 <= s < |r.owner| ==>
          && r.generation[s] <= r'.generation[s]
          && (r.generation[s] == r'.generation[s] && r.signature[s].Some? ==>
                r'.owner[s] == r.owner[s] && r'.signature[s] == r.signature[s]))
  }

  lemma AdvancesReflexive(r: Registry)
    requires Valid(r)
    ensures Advances(r, r)
  {
  }

  lemma AdvancesTransitive(a: Registry, b: Registry, c: Registry)
    requires Advances(a, b) && Advances(b, c)
    ensures Advances(a, c)
  {
    assert forall s :: 0 <= s < |a.owner| && a.generation[s] == c.generation[s] ==> a.generation[s] == b.generation[s];
  }

  lemma {:induction false} ReleaseAdvances(r: Registry, ids: seq<string>)
    requires Valid(r)
    ensures Advances(r, Release(r, ids))
    ensures forall q :: q in Release(r, ids).rowOf <==> q in r.rowOf && q !in ids
    ensures forall q :: q in Release(r, ids).rowOf ==> Release(r, ids).rowOf[q] == r.rowOf[q]
  {
    if ids != [] {
      ReleaseAdvances(r, ids[..|ids| - 1]);
    }
  }

  ghost predicate Named(r: Registry, ids: seq<string>, s: nat)
    requires s < |r.owner|
  {
    r.owner[s].Some? && r.owner[s].value in ids
  }

  /** A row of a named request loses its owner and blocks and gains one generation, however often it is named; others keep all. */
  lemma {:induction false} ReleasedRow(r: Registry, ids: seq<string>, s: nat)
    requires Valid(r) && s < |r.owner|
    ensures var after := Release(r, ids);
            && after.generation[s] == r.generation[s] + (if Named(r, ids, s) then 1 else 0)
            && after.signature[s] == (if Named(r, ids, s) then None else r.signature[s])
            && after.owner[s] == (if Named(r, ids, s) then None else r.owner[s])
  {
    if ids != [] {
      ReleasedRow(r, ids[..|ids| - 1], s);
      assert ids == ids[..|ids| - 1] + [ids[|ids| - 1]];
    }
  }

  lemma {:induction false} InvalidateAdvances(r: Registry, ids: seq<string>)
    requires Valid(r)
    ensures Advances(r, Invalidate(r, ids))
    ensures Invalidate(r, ids).rowOf == r.rowOf
    ensures forall q :: q in r.rowOf && q in ids ==>
              r.generation[r.rowOf[q]] < Invalidate(r, ids).generation[r.rowOf[q]]
    ensures forall s :: 0 <= s < |r.owner| && !(r.owner[s].Some? && r.owner[s].value in ids) ==>
              Invalidate(r, ids).generation[s] == r.generation[s]
    ensures Invalidate(r, ids).signature == r.signature && Invalidate(r, ids).owner == r.owner
  {
    if ids != [] {
      InvalidateAdvances(r, ids[..|ids| - 1]);
      assert ids == ids[..|ids| - 1] + [ids[|ids| - 1]];
    }
  }

  /** Request `q` holds a row for the blocks `sig` at the bound generation. */
  ghost predicate HoldsRow(r: Registry, q: string, sig: Signature, b: Binding) {
    && q in r.rowOf && r.rowOf[q] == b.row < |r.owner| == |r.signature| == |r.generation|
    && r.owner[b.row] == Some(q) && r.signature[b.row] == Some(sig) && r.generation[b.row] == b.generation
  }

  lemma BindOneFacts(r: Registry, q: string, sig: Signature, protected: set<string>)
    requires Valid(r) && q in protected && |protected| <= |r.owner|
    ensures var o := BindOne(r, q, sig, protected);
            && o.Some? && Advances(r, o.value)
            && HoldsRow(o.value, q, sig, Binding(o.value.rowOf[q], o.value.generation[o.value.rowOf[q]]))
            && (forall p, ps, b :: p in protected && p != q && HoldsRow(r, p, ps, b) ==> HoldsRow(o.value, p, ps, b))
  {
    hide ChooseRow, Touch, Allocate, Valid, Advances, HoldsRow, Evictable;
    if q in r.rowOf {
      TouchFacts(r, q, sig);
    } else {
      RowAvailable(r, q, protected);
      var s := ChooseRow(r, protected).value;
      AllocateFacts(r, q, s, protected);
      TouchFacts(Allocate(r, q, s), q, sig);
      AdvancesTransitive(r, Allocate(r, q, s), Touch(Allocate(r, q, s), q, sig));
    }
  }

  lemma TouchFacts(r: Registry, q: string, sig: Signature)
    requires Valid(r) && q in r.rowOf
    ensures var after := Touch(r, q, sig);
            && Advances(r, after) && after.rowOf[q] < |after.generation|
            && HoldsRow(after, q, sig, Binding(after.rowOf[q], after.generation[after.rowOf[q]]))
            && (forall p, ps, b :: p != q && HoldsRow(r, p, ps, b) ==> HoldsRow(after, p, ps, b))
  {
  }

  lemma AllocateFacts(r: Registry, q: string, s: nat, protected: set<string>)
    requires Valid(r) && q !in r.rowOf && s < |r.owner| && Evictable(r.owner, protected, s)
    ensures var after := Allocate(r, q, s);
            && Advances(r, after)
            && (forall p, ps, b :: p in protected && p != q && HoldsRow(r, p, ps, b) ==> HoldsRow(after, p, ps, b))
  {
  }

  lemma {:induction false} BindUpToFacts(r: Registry, ids: seq<string>, sigs: seq<Signature>, protected: set<string>, upTo: nat)
    requires Valid(r) && upTo <= |ids| == |sigs|
    requires forall i, j :: 0 <= i < j < |ids| ==> ids[i] != ids[j]
    requires (forall i :: 0 <= i < |ids| ==> ids[i] in protected) && |protected| <= |r.owner|
    ensures var o := BindUpTo(r, ids, sigs, protected, upTo);
            && o.Some? && Advances(r, o.value.registry)
            && (forall i :: 0 <= i < upTo ==> HoldsRow(o.value.registry, ids[i], sigs[i], o.value.bindings[i]))
  {
    hide BindOne, HoldsRow, Valid, Advances;
    if upTo == 0 {
      AdvancesReflexive(r);
    } else {
      BindUpToFacts(r, ids, sigs, protected, upTo - 1);
      var earlier := BindUpTo(r, ids, sigs, protected, upTo - 1).value;
      BindOneFacts(earlier.registry, ids[upTo - 1], sigs[upTo - 1], protected);
      AdvancesTransitive(r, earlier.registry, BindOne(earlier.registry, ids[upTo - 1], sigs[upTo - 1], protected).value);
    }
  }

  /**
    A batch of different requests that fits the rows is always bound.  Each request gets a row of
    its own for its own blocks, and rows with an unchanged generation are exactly as they were.
   */
  lemma BindKeepsTrust(r: Registry, ids: seq<string>, sigs: seq<Signature>)
    requires Valid(r) && |ids| == |sigs| <= |r.owner|
    requires forall i, j :: 0 <= i < j < |ids| ==> ids[i] != ids[j]
    ensures var o := Bind(r, ids, sigs);
            && o.BoundAll? && Advances(r, o.bound.registry) && |o.bound.bindings| == |ids|
            && (forall i :: 0 <= i < |ids| ==> HoldsRow(o.bound.registry, ids[i], sigs[i], o.bound.bindings[i]))
            && (forall i, j :: 0 <= i < j < |ids| ==> o.bound.bindings[i].row != o.bound.bindings[j].row)
  {
    DistinctAtMost(ids);
    BindUpToFacts(r, ids, sigs, set q | q in ids, |ids|);
  }
}
