/** The flat container as an object that grows its lists in place. */
module FlatContainer {
  import opened Options
  import opened FlatLogprobs

  class FlatStore {
    var startIndices: seq<int>
    var endIndices: seq<int>
    var tokenIds: seq<nat>
    var logprobs: seq<real>
    var ranks: seq<Option<int>>
    var decodedTokens: seq<Option<string>>

    ghost function View(): Flat
      reads this
    {
      Flat(startIndices, endIndices, tokenIds, logprobs, ranks, decodedTokens)
    }

    constructor (f: Flat)
      ensures View() == f
    {
      startIndices, endIndices := f.starts, f.ends;
      tokenIds, logprobs, ranks, decodedTokens := f.tokens, f.logprobs, f.ranks, f.decoded;
    }

    method Append(one: Option<Entries>)
      requires Valid(View())
      modifies this
      ensures View() == Grown(old(View()), if one.None? then [] else one.value)
      ensures Valid(View())
      ensures Contents(View()) == old(Contents(View())) + [if one.None? then map[] else DictOf(one.value)]
    {
      hide Contents, Valid, DictOf, Tokens, Logprobs, Ranks, Decoded;
      ghost var before := View();
      var entries := if one.None? then [] else one.value;
      GrownRefines(before, entries);
      DictEmpty([]);
      startIndices := startIndices + [|logprobs|];
      NoColumns(entries);
      for k := 0 to |entries|
        invariant startIndices == old(startIndices) + [old(|logprobs|)] && endIndices == old(endIndices)
        invariant tokenIds == before.tokens + Tokens(entries[..k]) && logprobs == before.logprobs + Logprobs(entries[..k])
        invariant ranks == before.ranks + Ranks(entries[..k]) && decodedTokens == before.decoded + Decoded(entries[..k])
      {
        var (token, info) := entries[k];
        ColumnsGrow(entries, k);
        tokenIds := tokenIds + [token];
        logprobs := logprobs + [info.logprob];
        ranks := ranks + [info.rank];
        decodedTokens := decodedTokens + [info.decoded];
      }
      assert entries[..|entries|] == entries;
      endIndices := endIndices + [|logprobs|];
    }

    method AppendFast(tokens: seq<nat>, values: seq<real>, rankColumn: seq<int>, decoded: seq<Option<string>>)
      requires Valid(View())
      modifies this
      ensures View() == Grown(old(View()), Zipped(tokens, values, rankColumn, decoded))
      ensures Valid(View())
      ensures Contents(View()) == old(Contents(View())) + [DictOf(Zipped(tokens, values, rankColumn, decoded))]
    {
      hide Contents, Valid, DictOf, Tokens, Logprobs, Ranks, Decoded;
      ghost var before := View();
      ghost var entries := Zipped(tokens, values, rankColumn, decoded);
      GrownRefines(before, entries);
      startIndices := startIndices + [|logprobs|];
      NoColumns(entries);
      var k := 0;
      while k < |tokens| && k < |values| && k < |rankColumn| && k < |decoded|
        invariant 0 <= k <= |entries|
        invariant startIndices == old(startIndices) + [old(|logprobs|)] && endIndices == old(endIndices)
        invariant tokenIds == before.tokens + Tokens(entries[..k]) && logprobs == before.logprobs + Logprobs(entries[..k])
        invariant ranks == before.ranks + Ranks(entries[..k]) && decodedTokens == before.decoded + Decoded(entries[..k])
        decreases |tokens| - k
      {
        ColumnsGrow(entries, k);
        tokenIds := tokenIds + [tokens[k]];
        logprobs := logprobs + [values[k]];
        ranks := ranks + [Some(rankColumn[k])];
        decodedTokens := decodedTokens + [decoded[k]];
        k := k + 1;
      }
      assert entries[..|entries|] == entries;
      endIndices := endIndices + [|logprobs|];
    }

    method Extend(many: seq<Option<Entries>>)
      requires Valid(View())
      modifies this
      ensures Valid(View())
      ensures Contents(View()) == old(Contents(View())) + Positions(many)
    {
      for k := 0 to |many|
        invariant Valid(View()) && Contents(View()) == old(Contents(View())) + Positions(many[..k])
      {
        Append(many[k]);
        assert many[..k + 1][..k] == many[..k];
      }
      assert many[..|many|] == many;
    }

    /** Reads one position, counted from the end when negative. */
    method GetItem(index: int) returns (r: Read)
      requires Valid(View())
      ensures var n := |View().starts|;
              r == if 0 <= index < n then Found(Contents(View())[index])
                   else if -n <= index < 0 then Found(Contents(View())[n + index])
                   else IndexError
    {
      var at := PyIndex(|startIndices|, index);
      if at.None? {
        return IndexError;
      }
      var position := at.value;
      ValidReads(View(), position);
      var dict: Position := map[];
      for j := startIndices[position] to endIndices[position]
        invariant ReadRange(View(), startIndices[position], j) == Found(dict)
      {
        dict := dict[tokenIds[j] := Logprob(logprobs[j], ranks[j], decodedTokens[j])];
      }
      r := Found(dict);
    }

    /** Reads every position in turn. */
    method Iterate() returns (all: seq<Position>)
      requires Valid(View())
      ensures all == Contents(View())
    {
      all := [];
      for i := 0 to |startIndices|
        invariant all == Contents(View())[..i]
      {
        var r := GetItem(i);
        all := all + [r.position];
      }
    }

    /** `None` when the slice picks nothing, which is an index error. */
    method GetSlice(s: Slice) returns (r: Option<FlatStore>)
      requires Valid(View()) && s.step != 0
      ensures Within(Picked(|View().starts|, s), 0, |View().starts|)
      ensures if s.step > 0 then Climbing(Picked(|View().starts|, s)) else Falling(Picked(|View().starts|, s))
      ensures forall p :: p in Picked(|View().starts|, s) <==> 0 <= p < |View().starts| && InSlice(|View().starts|, s, p)
      ensures r.None? <==> Picked(|View().starts|, s) == []
      ensures r.Some? ==> fresh(r.value) && r.value.View() == Sliced(View(), Picked(|View().starts|, s))
      ensures r.Some? && s.step > 0 ==>
                && Valid(r.value.View())
                && Contents(r.value.View()) == PickedContents(View(), Picked(|View().starts|, s))
    {
      PickedShape(|startIndices|, s);
      var picked := Picked(|startIndices|, s);
      forall p
        ensures p in picked <==> 0 <= p < |startIndices| && InSlice(|startIndices|, s, p)
      {
        PickedExactly(|startIndices|, s, p);
      }
      if picked == [] {
        return None;
      }
      if s.step > 0 {
        ClimbingSliceRefines(View(), picked);
      }
      var slice := Sliced(Flat(startIndices, endIndices, tokenIds, logprobs, ranks, decodedTokens), picked);
      var store := new FlatStore(slice);
      r := Some(store);
    }

    /** The flat branch of appending the next position. */
    method AppendNext(tokens: seq<nat>, values: seq<real>, decoded: seq<Option<string>>, rank: int, numLogprobs: int)
      requires Valid(View())
      modifies this
      ensures Valid(View())
      ensures Contents(View()) == NextPosition(old(Contents(View())), tokens, values, decoded, rank, numLogprobs)
    {
      AppendFast(tokens, values, RankColumn(rank, numLogprobs, |values|), decoded);
    }
  }

  lemma NoColumns(entries: Entries)
    ensures Tokens(entries[..0]) == [] && Logprobs(entries[..0]) == [] && Ranks(entries[..0]) == [] && Decoded(entries[..0]) == []
    ensures |Logprobs(entries)| == |entries|
  {
  }

  ghost function Positions(many: seq<Option<Entries>>): seq<Position> {
    if many == [] then []
    else
      var k := |many| - 1;
      Positions(many[..k]) + [if many[k].None? then map[] else DictOf(many[k].value)]
  }

  /** What both containers must hold after appending the next position. */
  ghost function NextPosition(list: seq<Position>, tokens: seq<nat>, values: seq<real>, decoded: seq<Option<string>>,
                              rank: int, numLogprobs: int): seq<Position>
  {
    list + [DictOf(Zipped(tokens, values, RankColumn(rank, numLogprobs, |values|), decoded))]
  }

  /** How many entries the columns give: the shortest one ends them. */
  function EntryCount(tokens: seq<nat>, values: seq<real>, decoded: seq<Option<string>>, numLogprobs: int): (n: nat)
    ensures n <= |tokens| && n <= |values| && n <= |decoded|
  {
    var top := if numLogprobs == -1 then |values| else if numLogprobs < 0 then 0 else numLogprobs;
    Shortest(Shortest(|tokens|, |values|), Shortest(1 + top, |decoded|))
  }

  lemma ZippedEntries(tokens: seq<nat>, values: seq<real>, decoded: seq<Option<string>>, rank: int, numLogprobs: int)
    ensures var entries := Zipped(tokens, values, RankColumn(rank, numLogprobs, |values|), decoded);
            && |entries| == EntryCount(tokens, values, decoded, numLogprobs)
            && forall k :: 0 <= k < |entries| ==>
                 entries[k] == (tokens[k], Logprob(values[k], Some(if k == 0 then rank else k), decoded[k]))
  {
  }

  /**
    The appended dictionary, entry by entry: the sampled token first, with its own rank, then the
    top tokens with ranks 1, 2, …; a repeated token keeps its last entry.
   */
  lemma NextPositionEntries(list: seq<Position>, tokens: seq<nat>, values: seq<real>, decoded: seq<Option<string>>,
                            rank: int, numLogprobs: int)
    ensures var next := NextPosition(list, tokens, values, decoded, rank, numLogprobs);
            var n := EntryCount(tokens, values, decoded, numLogprobs);
            && |next| == |list| + 1 && next[..|list|] == list
            && (forall t :: t in next[|list|] <==> exists k :: 0 <= k < n && tokens[k] == t)
            && (forall k :: 0 <= k < n && (forall j :: k < j < n ==> tokens[j] != tokens[k]) ==>
                  && tokens[k] in next[|list|]
                  && next[|list|][tokens[k]] == Logprob(values[k], Some(if k == 0 then rank else k), decoded[k]))
  {
    hide DictOf, Zipped, RankColumn, EntryCount;
    var entries := Zipped(tokens, values, RankColumn(rank, numLogprobs, |values|), decoded);
    ZippedEntries(tokens, values, decoded, rank, numLogprobs);
    DictOfColumn(entries, tokens[..|entries|]);
  }

  /** The entries of a dictionary, by their keys. */
  lemma DictOfColumn(entries: Entries, keys: seq<nat>)
    requires |keys| == |entries| && forall k :: 0 <= k < |entries| ==> entries[k].0 == keys[k]
    ensures forall t :: t in DictOf(entries) <==> exists k :: 0 <= k < |keys| && keys[k] == t
    ensures forall k :: 0 <= k < |keys| && (forall j :: k < j < |keys| ==> keys[j] != keys[k]) ==>
              keys[k] in DictOf(entries) && DictOf(entries)[keys[k]] == entries[k].1
  {
    hide DictOf;
    assert entries[..|entries|] == entries;
    forall t
      ensures t in DictOf(entries) <==> exists k :: 0 <= k < |keys| && keys[k] == t
    {
      DictKeys(entries, |entries|, t);
    }
    forall k | 0 <= k < |keys| && (forall j :: k < j < |keys| ==> keys[j] != keys[k])
      ensures keys[k] in DictOf(entries) && DictOf(entries)[keys[k]] == entries[k].1
    {
      DictLast(entries, |entries|, k);
    }
  }

  /** The list branch: a dictionary is built and appended. */
  method ListAppendNext(list: seq<Position>, tokens: seq<nat>, values: seq<real>, decoded: seq<Option<string>>,
                        rank: int, numLogprobs: int)
    returns (r: seq<Position>)
    ensures r == NextPosition(list, tokens, values, decoded, rank, numLogprobs)
  {
    hide DictOf, RankColumn;
    var ranks := RankColumn(rank, numLogprobs, |values|);
    ghost var entries := Zipped(tokens, values, ranks, decoded);
    var dict: Position := map[];
    DictEmpty(entries[..0]);
    var k := 0;
    while k < |tokens| && k < |values| && k < |ranks| && k < |decoded|
      invariant 0 <= k <= |entries| && dict == DictOf(entries[..k])
      decreases |tokens| - k
    {
      DictNext(entries, k);
      dict := dict[tokens[k] := Logprob(values[k], Some(ranks[k]), decoded[k])];
      k := k + 1;
    }
    assert entries[..|entries|] == entries;
    r := list + [dict];
  }
}
