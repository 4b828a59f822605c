/** The mutable request and completion objects, and `add` as the in-place update it is. */
module RequestObjects {
  import opened Options
  import opened RequestOutputs
  import opened SortedSets

  class CompletionOutput {
    const index: nat
    var text: string
    var tokenIds: seq<int>
    var logprobs: Option<seq<real>>
    var cumulativeLogprob: Option<real>
    var finishReason: Option<string>
    var stopReason: Option<string>

    constructor (piece: Piece)
      ensures Value() == piece
    {
      index, text, tokenIds, logprobs := piece.index, piece.text, piece.tokens, piece.logprobs;
      cumulativeLogprob, finishReason, stopReason := piece.cumulative, piece.finishReason, piece.stopReason;
    }

    ghost function Value(): Piece
      reads this
    {
      Piece(index, text, tokenIds, logprobs, cumulativeLogprob, finishReason, stopReason)
    }

    /** Merges a later completion of the same index into this one; false when the assertion on `logprobs` fails. */
    method Absorb(next: CompletionOutput) returns (ok: bool)
      requires next != this
      modifies this
      ensures ok == Mergeable(old(Value()), next.Value())
      ensures Value() == if ok then Merged(old(Value()), next.Value()) else HalfMerged(old(Value()), next.Value())
    {
      text := text + next.text;
      tokenIds := tokenIds + next.tokenIds;
      if next.logprobs.Some? && next.logprobs.value != [] {
        if logprobs == None {
          return false;
        }
        logprobs := Some(logprobs.value + next.logprobs.value);
      } else if next.logprobs.Some? && logprobs.Some? {
        assert logprobs.value + next.logprobs.value == logprobs.value;
      }
      cumulativeLogprob := next.cumulativeLogprob;
      finishReason := next.finishReason;
      stopReason := next.stopReason;
      ok := true;
    }
  }

  ghost function Values(completions: seq<CompletionOutput>): (values: seq<Piece>)
    reads completions
    ensures |values| == |completions|
    ensures forall i :: 0 <= i < |completions| ==> values[i] == completions[i].Value()
  {
    if completions == [] then []
    else Values(completions[..|completions| - 1]) + [completions[|completions| - 1].Value()]
  }

  class RequestOutput {
    var outputs: seq<CompletionOutput>
    var finished: bool
    var kvTransferParams: Option<string>

    /** Where the first completion with the index sits, or the number of completions. */
    method Locate(index: nat) returns (i: nat)
      ensures i == Find(Values(outputs), index)
    {
      hide Values;
      i := 0;
      while i < |outputs| && outputs[i].index != index
        invariant i <= |outputs|
        invariant forall k :: 0 <= k < i ==> Values(outputs)[k].index != index
      {
        i := i + 1;
      }
      if i < |outputs| {
        FindIs(Values(outputs), index, i);
      } else {
        FindMissing(Values(outputs), index);
      }
    }

    method AddCompletion(next: CompletionOutput, aggregate: bool) returns (ok: bool)
      requires NoDuplicates(outputs) && next !in outputs
      modifies this`outputs, outputs
      ensures Outcome(Values(outputs), ok) == AddOne(Outcome(old(Values(outputs)), true), old(next.Value()), aggregate)
      ensures NoDuplicates(outputs) && forall i :: 0 <= i < |outputs| ==> outputs[i] in old(outputs) || outputs[i] == next
    {
      hide Values, Merged, HalfMerged, Mergeable;
      ghost var before := Values(outputs);
      ghost var value := next.Value();
      var i := Locate(next.index);
      ok := true;
      if i == |outputs| {
        outputs := outputs + [next];
        assert Values(outputs) == before + [value];
      } else if aggregate {
        ok := outputs[i].Absorb(next);
        assert Values(outputs) == before[i := Values(outputs)[i]];
      } else {
        outputs := outputs[i := next];
        assert Values(outputs) == before[i := value];
      }
    }

    /** Merges a later output of the same request into this one. */
    method Add(next: RequestOutput, aggregate: bool) returns (ok: bool)
      requires next != this && NoDuplicates(outputs + next.outputs)
      modifies this, outputs, next.outputs
      ensures finished == (old(finished) || next.finished) && kvTransferParams == next.kvTransferParams
      ensures Outcome(Values(outputs), ok)
              == AddAll(Outcome(old(Values(outputs)), true), old(Values(next.outputs)), aggregate)
      ensures next.outputs == old(next.outputs)
    {
      hide *;
      PartsDistinct(outputs, next.outputs);
      finished := finished || next.finished;
      kvTransferParams := next.kvTransferParams;
      ghost var was, deltas := Values(outputs), Values(next.outputs);
      ghost var incoming := next.outputs;
      ok := true;
      NothingAdded(was, deltas, aggregate);
      for j := 0 to |next.outputs|
        invariant ok && next.outputs == incoming
        invariant finished == (old(finished) || next.finished) && kvTransferParams == next.kvTransferParams
        invariant Outcome(Values(outputs), true) == AddAll(Outcome(was, true), deltas[..j], aggregate)
        invariant NoDuplicates(outputs)
        invariant forall i :: 0 <= i < |outputs| ==> outputs[i] in old(outputs) || outputs[i] in incoming
        invariant forall k :: j <= k < |incoming| ==> incoming[k] !in outputs && incoming[k].Value() == deltas[k]
      {
        AddNext(was, deltas, j, aggregate);
        ok := AddCompletion(next.outputs[j], aggregate);
        if !ok {
          RestIsSkipped(was, deltas, j + 1, aggregate);
          return;
        }
      }
      assert deltas[..|deltas|] == deltas;
    }
  }

  lemma PartsDistinct(outputs: seq<CompletionOutput>, incoming: seq<CompletionOutput>)
    requires NoDuplicates(outputs + incoming)
    ensures NoDuplicates(outputs)
    ensures forall k :: 0 <= k < |incoming| ==> incoming[k] !in outputs
    ensures forall j, k :: 0 <= j < k < |incoming| ==> incoming[j] != incoming[k]
  {
    var all := outputs + incoming;
    assert forall k :: 0 <= k < |incoming| ==> incoming[k] == all[|outputs| + k];
    assert forall k :: 0 <= k < |outputs| ==> outputs[k] == all[k];
  }

  lemma NothingAdded(was: seq<Piece>, deltas: seq<Piece>, aggregate: bool)
    ensures AddAll(Outcome(was, true), deltas[..0], aggregate) == Outcome(was, true)
  {
  }

  lemma AddNext(was: seq<Piece>, deltas: seq<Piece>, j: nat, aggregate: bool)
    requires j < |deltas|
    ensures AddAll(Outcome(was, true), deltas[..j + 1], aggregate)
            == AddOne(AddAll(Outcome(was, true), deltas[..j], aggregate), deltas[j], aggregate)
  {
    assert deltas[..j + 1][..j] == deltas[..j];
  }

  lemma RestIsSkipped(was: seq<Piece>, deltas: seq<Piece>, j: nat, aggregate: bool)
    requires j <= |deltas| && !AddAll(Outcome(was, true), deltas[..j], aggregate).ok
    ensures AddAll(Outcome(was, true), deltas, aggregate) == AddAll(Outcome(was, true), deltas[..j], aggregate)
  {
    AddAllConcat(Outcome(was, true), deltas[..j], deltas[j..], aggregate);
    assert deltas[..j] + deltas[j..] == deltas;
    AllStaysFailed(AddAll(Outcome(was, true), deltas[..j], aggregate), deltas[j..], aggregate);
  }
}
