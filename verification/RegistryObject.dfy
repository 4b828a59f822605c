/** The registry as the object that updates its tables in place. */
module RegistryObject {
  import opened Options
  import opened ResidentRegistry

  class RequestStateRegistry {
    var requestToState: map<string, nat>
    var stateToRequest: seq<Option<string>>
    var signatures: seq<Option<Signature>>
    var generations: seq<nat>
    var lastUsed: seq<nat>
    var clock: nat

    ghost function View(): Registry
      reads this
    {
      Registry(requestToState, stateToRequest, signatures, generations, lastUsed, clock)
    }

    constructor (maxStates: nat)
      requires maxStates > 0
      ensures View() == Fresh(maxStates)
    {
      requestToState := map[];
      stateToRequest := seq(maxStates, s => None);
      signatures := seq(maxStates, s => None);
      generations := seq(maxStates, s => 0);
      lastUsed := seq(maxStates, s => 0);
      clock := 0;
    }

    method Release(ids: seq<string>)
      requires Valid(View())
      modifies this
      ensures View() == ResidentRegistry.Release(old(View()), ids)
    {
      for i := 0 to |ids|
        invariant View() == ResidentRegistry.Release(old(View()), ids[..i])
      {
        assert ids[..i + 1][..i] == ids[..i];
        if ids[i] in requestToState {
          var state := requestToState[ids[i]];
          requestToState := requestToState - {ids[i]};
          stateToRequest := stateToRequest[state := None];
          signatures := signatures[state := None];
          generations := generations[state := generations[state] + 1];
        }
      }
      assert ids[..|ids|] == ids;
    }

    method Invalidate(ids: seq<string>)
      requires Valid(View())
      modifies this`generations
      ensures View() == ResidentRegistry.Invalidate(old(View()), ids)
    {
      for i := 0 to |ids|
        invariant View() == ResidentRegistry.Invalidate(old(View()), ids[..i])
      {
        assert ids[..i + 1][..i] == ids[..i];
        if ids[i] in requestToState {
          var state := requestToState[ids[i]];
          generations := generations[state := generations[state] + 1];
        }
      }
      assert ids[..|ids|] == ids;
    }

    /** The row for a new request, found by scanning for a free row and then for the oldest unprotected one. */
    method FindRow(protected: set<string>) returns (row: Option<nat>)
      requires Valid(View())
      ensures row == ChooseRow(View(), protected)
    {
      for state := 0 to |stateToRequest|
        invariant FirstFree(stateToRequest, 0) == FirstFree(stateToRequest, state)
      {
        if stateToRequest[state].None? {
          return Some(state);
        }
      }
      row := None;
      for state := 0 to |stateToRequest|
        invariant row == LeastRecent(stateToRequest, lastUsed, protected, state)
      {
        if Evictable(stateToRequest, protected, state)
           && (row.None? || lastUsed[state] < lastUsed[row.value]) {
          row := Some(state);
        }
      }
    }

    method AllocateRow(q: string, protected: set<string>) returns (row: Option<nat>)
      requires Valid(View()) && q !in requestToState
      modifies this
      ensures row == ChooseRow(old(View()), protected)
      ensures View() == if row.None? then old(View()) else Allocate(old(View()), q, row.value)
    {
      hide ChooseRow, Evictable;
      row := FindRow(protected);
      if row.None? {
        return;
      }
      var state := row.value;
      if stateToRequest[state].Some? {
        requestToState := requestToState - {stateToRequest[state].value};
      }
      assert requestToState == old(requestToState) - if old(stateToRequest)[state].Some? then {old(stateToRequest)[state].value} else {};
      stateToRequest := stateToRequest[state := Some(q)];
      requestToState := requestToState[q := state];
      signatures := signatures[state := None];
      generations := generations[state := generations[state] + 1];
    }

    /** Records the scratch blocks of a row, with a new generation when they changed, and its use. */
    method TouchRow(q: string, sig: Signature)
      requires Valid(View()) && q in requestToState
      modifies this`signatures, this`generations, this`clock, this`lastUsed
      ensures View() == Touch(old(View()), q, sig)
    {
      var state := requestToState[q];
      if signatures[state] != Some(sig) {
        signatures := signatures[state := Some(sig)];
        generations := generations[state := generations[state] + 1];
      }
      assert signatures[state := Some(sig)] == signatures;
      clock := clock + 1;
      lastUsed := lastUsed[state := clock];
    }

    /** Binds one request; `row` is `None` when no row can be evicted for it. */
    method BindRequest(q: string, sig: Signature, protected: set<string>) returns (row: Option<nat>)
      requires Valid(View())
      modifies this
      ensures var after := BindOne(old(View()), q, sig, protected);
              if after.None? then row.None? && View() == old(View())
              else View() == after.value && row == Some(View().rowOf[q])
    {
      hide Valid, Touch, Allocate, ChooseRow;
      if q !in requestToState {
        row := AllocateRow(q, protected);
        if row.None? {
          return;
        }
      }
      row := Some(requestToState[q]);
      TouchRow(q, sig);
    }

    /** Binds a batch; the rows and generations are returned in the order of the requests. */
    method Bind(ids: seq<string>, sigs: seq<Signature>) returns (result: BindResult)
      requires Valid(View())
      modifies this
      ensures result == ResidentRegistry.Bind(old(View()), ids, sigs) && !result.NoEvictableRow?
      ensures View() == if result.BoundAll? then result.bound.registry else old(View())
    {
      hide Valid, BindUpTo, BindOne, ResidentRegistry.Bind;
      ghost var before := View();
      if |ids| != |sigs| {
        BindRefuses(before, ids, sigs);
        return LengthMismatch;
      }
      if |ids| > |stateToRequest| {
        BindRefuses(before, ids, sigs);
        return TooManyActive;
      }
      var protected := set q | q in ids;
      var bindings: seq<Binding> := [];
      BindStarts(before, ids, sigs, protected);
      for i := 0 to |ids|
        invariant Valid(View())
        invariant BindUpTo(before, ids, sigs, protected, i) == Some(Bound(View(), bindings))
      {
        BindNext(before, ids, sigs, protected, i);
        var row := BindRequest(ids[i], sigs[i], protected);
        bindings := bindings + [Binding(row.value, generations[row.value])];
      }
      BindFinishes(before, ids, sigs);
      return BoundAll(Bound(Registry(requestToState, stateToRequest, signatures, generations, lastUsed, clock), bindings));
    }
  }

  lemma BindRefuses(r: Registry, ids: seq<string>, sigs: seq<Signature>)
    requires Valid(r) && (|ids| != |sigs| || |ids| > |r.owner|)
    ensures ResidentRegistry.Bind(r, ids, sigs) == if |ids| != |sigs| then LengthMismatch else TooManyActive
  {
  }

  lemma BindStarts(r: Registry, ids: seq<string>, sigs: seq<Signature>, protected: set<string>)
    requires Valid(r) && |ids| == |sigs|
    ensures BindUpTo(r, ids, sigs, protected, 0) == Some(Bound(r, []))
  {
  }

  /** The next request of a batch that fits is bound, and its row is reported. */
  lemma BindNext(r: Registry, ids: seq<string>, sigs: seq<Signature>, protected: set<string>, i: nat)
    requires Valid(r) && i < |ids| == |sigs| <= |r.owner| && protected == set q | q in ids
    requires BindUpTo(r, ids, sigs, protected, i).Some?
    ensures var earlier := BindUpTo(r, ids, sigs, protected, i).value;
            var after := BindOne(earlier.registry, ids[i], sigs[i], protected);
            && after.Some? && after.value.rowOf[ids[i]] < |after.value.generation|
            && var s := after.value.rowOf[ids[i]];
               BindUpTo(r, ids, sigs, protected, i + 1)
               == Some(Bound(after.value, earlier.bindings + [Binding(s, after.value.generation[s])]))
  {
    hide Valid, BindOne, Advances, HoldsRow;
    DistinctAtMost(ids);
    var earlier := BindUpTo(r, ids, sigs, protected, i).value;
    BindOneFacts(earlier.registry, ids[i], sigs[i], protected);
    RowInRange(BindOne(earlier.registry, ids[i], sigs[i], protected).value, ids[i]);
  }

  lemma RowInRange(r: Registry, q: string)
    requires Valid(r) && q in r.rowOf
    ensures r.rowOf[q] < |r.generation|
  {
  }

  lemma BindFinishes(r: Registry, ids: seq<string>, sigs: seq<Signature>)
    requires Valid(r) && |ids| == |sigs| <= |r.owner|
    requires BindUpTo(r, ids, sigs, set q | q in ids, |ids|).Some?
    ensures ResidentRegistry.Bind(r, ids, sigs) == BoundAll(BindUpTo(r, ids, sigs, set q | q in ids, |ids|).value)
  {
    hide Valid, BindUpTo;
  }
}
