/** What the capacity check of the guard is for: how many tokens a passing request can select. */
module GuardCapacity {
  import opened Options
  import opened Arithmetic
  import opened ResidentRequest
  import opened ResidentGuard

  lemma NonZeroNext(boundaries: seq<int>, row: nat)
    requires row < |boundaries|
    ensures NonZero(boundaries[..row + 1]) == NonZero(boundaries[..row]) + if boundaries[row] != 0 then 1 else 0
  {
    assert boundaries[..row + 1][..row] == boundaries[..row];
  }

  lemma RowOf(row: nat, i: nat, rows: nat)
    requires row < rows && i < INDEX_TOPK
    ensures row * INDEX_TOPK + i < rows * INDEX_TOPK && (row * INDEX_TOPK + i) / INDEX_TOPK == row
    ensures (row * INDEX_TOPK + i) % INDEX_TOPK == i
  {
    PairInside(row, i, rows, INDEX_TOPK);
    EuclideanUnique(row, i, INDEX_TOPK);
  }

  // ----- The fault of a request, row by row

  /** The rows of the request that have a boundary. */
  ghost function BoundRows(boundaries: seq<int>, requests: seq<int>, request: int): set<nat>
    requires |boundaries| == |requests|
  {
    set r: nat | r < |boundaries| && requests[r] == request && boundaries[r] != 0
  }

  lemma {:induction false} NonZeroCounts(boundaries: seq<int>, requests: seq<int>, request: int)
    requires |boundaries| == |requests|
    ensures NonZero(BoundariesOf(boundaries, requests, request)) == |BoundRows(boundaries, requests, request)|
  {
    if boundaries == [] {
      assert BoundRows(boundaries, requests, request) == {};
    } else {
      var k := |boundaries| - 1;
      NonZeroCounts(boundaries[..k], requests[..k], request);
      var here := if requests[k] == request && boundaries[k] != 0 then {k} else {};
      assert BoundRows(boundaries, requests, request) == BoundRows(boundaries[..k], requests[..k], request) + here;
      var before := BoundariesOf(boundaries[..k], requests[..k], request);
      assert (before + [boundaries[k]])[..|before|] == before;
      assert before + [] == before;
    }
  }

  lemma {:induction false} ListedRow(boundaries: seq<int>, requests: seq<int>, request: int, i: nat) returns (r: nat)
    requires |boundaries| == |requests| && i < |BoundariesOf(boundaries, requests, request)|
    ensures r < |boundaries| && requests[r] == request && boundaries[r] == BoundariesOf(boundaries, requests, request)[i]
  {
    var k := |boundaries| - 1;
    if i < |BoundariesOf(boundaries[..k], requests[..k], request)| {
      r := ListedRow(boundaries[..k], requests[..k], request, i);
    } else {
      r := k;
    }
  }

  /** What a request is refused for, told by its own rows alone. */
  lemma FaultExactly(boundaries: seq<int>, requests: seq<int>, width: int, capacity: int, request: nat)
    requires |boundaries| == |requests|
    ensures var rows := BoundRows(boundaries, requests, request);
            FaultOf(boundaries, requests, width, capacity, request)
            == if |rows| * width > capacity then Some(TooSmall(request))
               else if exists r :: r in rows && boundaries[r] < capacity then Some(WouldAlias(request))
               else None
  {
    hide BoundariesOf, NonZero;
    var rows, own := BoundRows(boundaries, requests, request), BoundariesOf(boundaries, requests, request);
    NonZeroCounts(boundaries, requests, request);
    if i :| 0 <= i < |own| && own[i] != 0 && own[i] < capacity {
      var r := ListedRow(boundaries, requests, request, i);
      assert r in rows;
    }
    if r :| r in rows && boundaries[r] < capacity {
      var k := BoundaryListed(boundaries, requests, r);
      assert own[k] == boundaries[r];
    }
  }

  // ----- At most one token for each entry of a row that is offloaded

  lemma {:induction false} RowSelects(source: seq<int>, boundaries: seq<int>, row: nat, i: nat)
    requires WellShaped(source, boundaries) && row < |boundaries| && i <= INDEX_TOPK && row * INDEX_TOPK + i <= |source|
    ensures |SelectedUpTo(source, boundaries, row * INDEX_TOPK + i)|
            <= |SelectedUpTo(source, boundaries, row * INDEX_TOPK)| + if boundaries[row] != 0 then i else 0
  {
    if i > 0 {
      RowSelects(source, boundaries, row, i - 1);
      RowOf(row, i - 1, |boundaries|);
    }
  }

  lemma {:induction false} RowsSelect(source: seq<int>, boundaries: seq<int>, rows: nat)
    requires WellShaped(source, boundaries) && rows <= |boundaries| && rows * INDEX_TOPK <= |source|
    ensures |SelectedUpTo(source, boundaries, rows * INDEX_TOPK)| <= NonZero(boundaries[..rows]) * INDEX_TOPK
  {
    hide SelectedUpTo, NonZero;
    if rows == 0 {
      SelectedMembers(source, boundaries, 0);
    } else {
      RowsSelect(source, boundaries, rows - 1);
      NonZeroNext(boundaries, rows - 1);
      RowSelects(source, boundaries, rows - 1, INDEX_TOPK);
    }
  }

  lemma SelectsAtMost(source: seq<int>, boundaries: seq<int>)
    requires WellShaped(source, boundaries)
    ensures |Selected(source, boundaries)| <= NonZero(boundaries) * INDEX_TOPK
  {
    hide SelectedUpTo, NonZero;
    RowsSelect(source, boundaries, |boundaries|);
    assert boundaries[..|boundaries|] == boundaries;
  }

  /** A request that passes never selects more tokens than the scratch holds. */
  lemma PassingRequestFits(source: seq<int>, boundaries: seq<int>, capacity: int, request: nat)
    requires WellShaped(source, boundaries) && RequestFault(boundaries, INDEX_TOPK, capacity, request) == None
    ensures |Selected(source, boundaries)| <= capacity
  {
    hide Selected, NonZero;
    SelectsAtMost(source, boundaries);
  }

  // ----- And no smaller scratch would do

  ghost predicate AllBelow(s: set<nat>, n: nat) {
    forall t: nat :: t in s <==> t < n
  }

  lemma {:induction false} AllBelowCount(s: set<nat>, n: nat)
    requires AllBelow(s, n)
    ensures |s| == n
  {
    if n > 0 {
      AllBelowCount(s - {n - 1}, n - 1);
    } else {
      assert s == {};
    }
  }

  /** Rows that name different tokens, as many as they can. */
  ghost function Greedy(boundaries: seq<int>): (source: seq<int>)
    ensures WellShaped(source, boundaries)
  {
    seq(|boundaries| * INDEX_TOPK, p requires 0 <= p < |boundaries| * INDEX_TOPK => GreedyAt(boundaries, p))
  }

  ghost function GreedyAt(boundaries: seq<int>, p: nat): int
    requires p < |boundaries| * INDEX_TOPK
  {
    CellOf(p, |boundaries|, INDEX_TOPK);
    NonZero(boundaries[..p / INDEX_TOPK]) * INDEX_TOPK + p % INDEX_TOPK
  }

  ghost predicate Roomy(boundaries: seq<int>) {
    forall r :: 0 <= r < |boundaries| ==> boundaries[r] == 0 || NonZero(boundaries) * INDEX_TOPK <= boundaries[r]
  }

  lemma {:induction false} NonZeroGrows(boundaries: seq<int>, row: nat)
    requires row <= |boundaries|
    ensures NonZero(boundaries[..row]) <= NonZero(boundaries)
    decreases |boundaries| - row
  {
    if row < |boundaries| {
      NonZeroGrows(boundaries, row + 1);
      NonZeroNext(boundaries, row);
    } else {
      assert boundaries[..row] == boundaries;
    }
  }

  lemma GreedyOffloads(boundaries: seq<int>, row: nat, i: nat)
    requires Roomy(boundaries) && row < |boundaries| && i < INDEX_TOPK
    ensures var p := row * INDEX_TOPK + i;
            && p < |Greedy(boundaries)| && Greedy(boundaries)[p] == NonZero(boundaries[..row]) * INDEX_TOPK + i
            && (Offloaded(Greedy(boundaries), boundaries, p) <==> boundaries[row] != 0)
  {
    hide NonZero;
    RowOf(row, i, |boundaries|);
    if boundaries[row] != 0 {
      NonZeroNext(boundaries, row);
      NonZeroGrows(boundaries, row + 1);
      PairInside(NonZero(boundaries[..row]), i, NonZero(boundaries), INDEX_TOPK);
    }
  }

  lemma {:induction false} GreedyRow(boundaries: seq<int>, row: nat, i: nat)
    requires Roomy(boundaries) && row < |boundaries| && i <= INDEX_TOPK && row * INDEX_TOPK + i <= |Greedy(boundaries)|
    requires AllBelow(SelectedUpTo(Greedy(boundaries), boundaries, row * INDEX_TOPK), NonZero(boundaries[..row]) * INDEX_TOPK)
    ensures AllBelow(SelectedUpTo(Greedy(boundaries), boundaries, row * INDEX_TOPK + i),
                     NonZero(boundaries[..row]) * INDEX_TOPK + if boundaries[row] != 0 then i else 0)
  {
    hide Greedy, NonZero, Offloaded;
    if i > 0 {
      GreedyRow(boundaries, row, i - 1);
      GreedyOffloads(boundaries, row, i - 1);
    }
  }

  lemma {:induction false} GreedyRows(boundaries: seq<int>, rows: nat)
    requires Roomy(boundaries) && rows <= |boundaries| && rows * INDEX_TOPK <= |Greedy(boundaries)|
    ensures AllBelow(SelectedUpTo(Greedy(boundaries), boundaries, rows * INDEX_TOPK), NonZero(boundaries[..rows]) * INDEX_TOPK)
  {
    hide Greedy, SelectedUpTo;
    if rows == 0 {
      SelectedMembers(Greedy(boundaries), boundaries, 0);
      assert boundaries[..0] == [];
    } else {
      GreedyRows(boundaries, rows - 1);
      GreedyRow(boundaries, rows - 1, INDEX_TOPK);
      NonZeroNext(boundaries, rows - 1);
    }
  }

  /** When the boundaries leave room for it, the check on capacity passes exactly when every selection fits. */
  lemma CapacityCheckExact(boundaries: seq<int>, capacity: int)
    requires Roomy(boundaries)
    ensures NonZero(boundaries) * INDEX_TOPK <= capacity
            <==> forall source :: WellShaped(source, boundaries) ==> |Selected(source, boundaries)| <= capacity
  {
    hide Greedy, SelectedUpTo, NonZero, Roomy;
    forall source | WellShaped(source, boundaries)
      ensures |Selected(source, boundaries)| <= NonZero(boundaries) * INDEX_TOPK
    {
      SelectsAtMost(source, boundaries);
    }
    GreedyRows(boundaries, |boundaries|);
    assert boundaries[..|boundaries|] == boundaries;
    AllBelowCount(Selected(Greedy(boundaries), boundaries), NonZero(boundaries) * INDEX_TOPK);
    assert |Selected(Greedy(boundaries), boundaries)| == NonZero(boundaries) * INDEX_TOPK;
  }
}
