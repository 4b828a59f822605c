/** Merging the streamed outputs of a request: `RequestOutput.add` and what a whole stream of them adds up to. */
module RequestOutputs {
  import opened Options

  /** What one completion holds. `logprobs` has one entry per position when log probabilities were asked for. */
  datatype Piece = Piece(
    index: nat,
    text: string,
    tokens: seq<int>,
    logprobs: Option<seq<real>>,
    cumulative: Option<real>,
    finishReason: Option<string>,
    stopReason: Option<string>)

  /** The completions after merging; `ok` is false once the assertion on `logprobs` has stopped the merge. */
  datatype Outcome = Outcome(outputs: seq<Piece>, ok: bool)

  predicate Mergeable(x: Piece, y: Piece) {
    y.logprobs.Some? && y.logprobs.value != [] ==> x.logprobs.Some?
  }

  function MergedLogprobs(x: Option<seq<real>>, y: Option<seq<real>>): Option<seq<real>> {
    if x.Some? && y.Some? then Some(x.value + y.value) else x
  }

  function Merged(x: Piece, y: Piece): Piece {
    Piece(x.index, x.text + y.text, x.tokens + y.tokens, MergedLogprobs(x.logprobs, y.logprobs),
          y.cumulative, y.finishReason, y.stopReason)
  }

  /** What is left of a completion when the assertion fails: text and tokens are already extended. */
  function HalfMerged(x: Piece, y: Piece): Piece {
    x.(text := x.text + y.text, tokens := x.tokens + y.tokens)
  }

  /** The first completion with the given index, or the number of completions. */
  function Find(outputs: seq<Piece>, index: nat): (k: nat)
    ensures k <= |outputs|
    ensures k < |outputs| ==> outputs[k].index == index
    ensures forall i :: 0 <= i < k ==> outputs[i].index != index
  {
    if outputs == [] then 0
    else if outputs[0].index == index then 0
    else
      1 + Find(outputs[1..], index)
  }

  function AddOne(state: Outcome, y: Piece, aggregate: bool): Outcome {
    var k := Find(state.outputs, y.index);
    if !state.ok then state
    else if k == |state.outputs| then Outcome(state.outputs + [y], true)
    else if !aggregate then Outcome(state.outputs[k := y], true)
    else if Mergeable(state.outputs[k], y) then Outcome(state.outputs[k := Merged(state.outputs[k], y)], true)
    else Outcome(state.outputs[k := HalfMerged(state.outputs[k], y)], false)
  }

  function AddAll(state: Outcome, pieces: seq<Piece>, aggregate: bool): Outcome
  {
    if pieces == [] then state
    else AddOne(AddAll(state, pieces[..|pieces| - 1], aggregate), pieces[|pieces| - 1], aggregate)
  }

  ghost predicate DistinctIndices(outputs: seq<Piece>) {
    forall i, j :: 0 <= i < j < |outputs| ==> outputs[i].index != outputs[j].index
  }

  ghost predicate Has(outputs: seq<Piece>, index: nat) {
    Find(outputs, index) < |outputs|
  }

  lemma FindIs(outputs: seq<Piece>, index: nat, k: nat)
    requires k < |outputs| && outputs[k].index == index
    requires forall i :: 0 <= i < k ==> outputs[i].index != index
    ensures Find(outputs, index) == k
  {
  }

  lemma FindMissing(outputs: seq<Piece>, index: nat)
    requires forall i :: 0 <= i < |outputs| ==> outputs[i].index != index
    ensures Find(outputs, index) == |outputs|
  {
  }

  /** A step leaves the indices and their places alone, or appends one index. */
  lemma FindAfterAdd(state: Outcome, y: Piece, aggregate: bool, index: nat)
    ensures var after := AddOne(state, y, aggregate).outputs;
            && |state.outputs| <= |after|
            && (forall i :: 0 <= i < |state.outputs| ==> after[i].index == state.outputs[i].index)
            && (Has(state.outputs, index) ==> Find(after, index) == Find(state.outputs, index))
            && (!Has(state.outputs, index) && (index != y.index || !state.ok) ==> !Has(after, index))
            && (state.ok ==> Has(after, y.index))
            && (state.ok && !Has(state.outputs, y.index) ==> Find(after, y.index) == |state.outputs|)
  {
    hide Merged, HalfMerged, Mergeable, Find;
    var after := AddOne(state, y, aggregate).outputs;
    MergedIndex(state.outputs, y);
    if Has(state.outputs, index) {
      FindIs(after, index, Find(state.outputs, index));
    }
    if state.ok {
      FindIs(after, y.index, Find(state.outputs, y.index));
    }
  }

  lemma MergedIndex(outputs: seq<Piece>, y: Piece)
    ensures forall i :: 0 <= i < |outputs| ==>
              Merged(outputs[i], y).index == HalfMerged(outputs[i], y).index == outputs[i].index
  {
  }

  lemma {:induction false} AddAllConcat(state: Outcome, a: seq<Piece>, b: seq<Piece>, aggregate: bool)
    ensures AddAll(state, a + b, aggregate) == AddAll(AddAll(state, a, aggregate), b, aggregate)
    decreases |b|
  {
    if b == [] {
      assert a + b == a;
    } else {
      var n := |b| - 1;
      assert (a + b)[..|a + b| - 1] == a + b[..n];
      AddAllConcat(state, a, b[..n], aggregate);
    }
  }

  // ----- Associativity

  lemma MergedTwice(x: Piece, y: Piece, z: Piece)
    requires x.index == y.index == z.index && Mergeable(y, z)
    ensures Mergeable(x, Merged(y, z)) <==> Mergeable(x, y) && Mergeable(Merged(x, y), z)
    ensures Mergeable(x, Merged(y, z)) ==> Merged(x, Merged(y, z)) == Merged(Merged(x, y), z)
  {
    assert x.text + (y.text + z.text) == x.text + y.text + z.text;
    assert x.tokens + (y.tokens + z.tokens) == x.tokens + y.tokens + z.tokens;
    if x.logprobs.Some? && y.logprobs.Some? && z.logprobs.Some? {
      assert x.logprobs.value + (y.logprobs.value + z.logprobs.value) == x.logprobs.value + y.logprobs.value + z.logprobs.value;
    }
    if x.logprobs.Some? && z.logprobs.Some? && z.logprobs.value == [] {
      assert x.logprobs.value + z.logprobs.value == x.logprobs.value;
    }
  }

  /** Both merges stop on the assertion, or both end with the same completions. */
  ghost predicate Same(a: Outcome, b: Outcome) {
    a.ok == b.ok && (a.ok ==> a == b)
  }

  lemma {:induction false} SameAfterAll(a: Outcome, b: Outcome, pieces: seq<Piece>)
    requires Same(a, b)
    ensures Same(AddAll(a, pieces, true), AddAll(b, pieces, true))
  {
    if pieces != [] {
      SameAfterAll(a, b, pieces[..|pieces| - 1]);
    }
  }

  lemma AddMerged(state: Outcome, m: Piece, n: Piece)
    requires m.index == n.index && Mergeable(m, n)
    ensures Same(AddOne(state, Merged(m, n), true), AddOne(AddOne(state, m, true), n, true))
  {
    hide Find;
    if state.ok {
      FindAfterAdd(state, m, true, m.index);
      MergedIndex([m], n);
      assert Merged([m][0], n).index == m.index;
      if Has(state.outputs, m.index) {
        MergedTwice(state.outputs[Find(state.outputs, m.index)], m, n);
      }
    }
  }

  /** Pieces of different indices may be merged in either order once one of the indices is present. */
  lemma AddCommutes(state: Outcome, n: Piece, q: Piece)
    requires n.index != q.index && Has(state.outputs, n.index)
    ensures Same(AddOne(AddOne(state, n, true), q, true), AddOne(AddOne(state, q, true), n, true))
  {
    hide Merged, HalfMerged, Mergeable, Find;
    if state.ok {
      FindAfterAdd(state, n, true, q.index);
      FindAfterAdd(state, q, true, n.index);
    }
  }

  lemma {:induction false} AddCommutesWithAll(state: Outcome, n: Piece, rest: seq<Piece>)
    requires Has(state.outputs, n.index) && forall i :: 0 <= i < |rest| ==> rest[i].index != n.index
    ensures Same(AddAll(AddOne(state, n, true), rest, true), AddOne(AddAll(state, rest, true), n, true))
    ensures Has(AddAll(state, rest, true).outputs, n.index)
  {
    hide AddOne;
    if rest != [] {
      var most, last := rest[..|rest| - 1], rest[|rest| - 1];
      AddCommutesWithAll(state, n, most);
      var before := AddAll(state, most, true);
      FindAfterAdd(before, last, true, n.index);
      AddCommutes(before, n, last);
      SameStep(AddAll(AddOne(state, n, true), most, true), AddOne(before, n, true), last);
    }
  }

  lemma SameStep(a: Outcome, b: Outcome, y: Piece)
    requires Same(a, b)
    ensures Same(AddOne(a, y, true), AddOne(b, y, true))
  {
  }

  /** Merging into a delta and then adding it is adding the delta and then merging. */
  lemma AddOneInside(state: Outcome, d: seq<Piece>, n: Piece)
    requires DistinctIndices(d) && AddOne(Outcome(d, true), n, true).ok
    ensures Same(AddAll(state, AddOne(Outcome(d, true), n, true).outputs, true), AddOne(AddAll(state, d, true), n, true))
  {
    hide Find, Merged, HalfMerged, Mergeable, AddAll, Same;
    var k := Find(d, n.index);
    if k == |d| {
      AddThree(state, d, n, []);
      AddAllEmpty(AddOne(AddAll(state, d, true), n, true));
      assert d + [n] + [] == d + [n];
    } else {
      var l, m, r := d[..k], d[k], d[k + 1..];
      AddOneInsidePlace(state, l, m, r, n);
      assert d == l + [m] + r;
      assert d[k := Merged(m, n)] == l + [Merged(m, n)] + r;
    }
  }

  lemma AddThree(state: Outcome, l: seq<Piece>, m: Piece, r: seq<Piece>)
    ensures AddAll(state, l + [m] + r, true) == AddAll(AddOne(AddAll(state, l, true), m, true), r, true)
  {
    AddAllConcat(state, l + [m], r, true);
    assert (l + [m])[..|l|] == l;
  }

  lemma AddAllEmpty(state: Outcome)
    ensures AddAll(state, [], true) == state && Same(state, state)
  {
  }

  lemma AddOneInsidePlace(state: Outcome, l: seq<Piece>, m: Piece, r: seq<Piece>, n: Piece)
    requires m.index == n.index && Mergeable(m, n) && forall i :: 0 <= i < |r| ==> r[i].index != n.index
    ensures Same(AddAll(state, l + [Merged(m, n)] + r, true), AddOne(AddAll(state, l + [m] + r, true), n, true))
  {
    hide AddOne, AddAll, Merged, Mergeable;
    AddThree(state, l, m, r);
    AddThree(state, l, Merged(m, n), r);
    var before := AddAll(state, l, true);
    AddMerged(before, m, n);
    SameAfterAll(AddOne(before, Merged(m, n), true), AddOne(AddOne(before, m, true), n, true), r);
    FindAfterAdd(before, m, true, m.index);
    if before.ok {
      AddCommutesWithAll(AddOne(before, m, true), n, r);
    } else {
      StaysFailed(before, m);
      StaysFailed(before, n);
      StaysFailed(before, Merged(m, n));
      AllStaysFailed(before, r, true);
    }
  }

  lemma StaysFailed(state: Outcome, y: Piece)
    requires !state.ok
    ensures AddOne(state, y, true) == state
  {
  }

  lemma {:induction false} AllStaysFailed(state: Outcome, pieces: seq<Piece>, aggregate: bool)
    requires !state.ok
    ensures AddAll(state, pieces, aggregate) == state
  {
    if pieces != [] {
      AllStaysFailed(state, pieces[..|pieces| - 1], aggregate);
    }
  }

  lemma DistinctKept(state: Outcome, y: Piece, aggregate: bool)
    requires DistinctIndices(state.outputs)
    ensures DistinctIndices(AddOne(state, y, aggregate).outputs)
  {
    hide Merged, HalfMerged, Mergeable;
    MergedIndex(state.outputs, y);
  }

  /**
    Merging is associative: whenever `b` can absorb `c`, adding the merged delta to `a` does exactly
    what adding `b` and then `c` does, the assertion on `logprobs` included.
   */
  lemma {:induction false} MergingIsAssociative(a: Outcome, b: seq<Piece>, c: seq<Piece>)
    requires DistinctIndices(b) && AddAll(Outcome(b, true), c, true).ok
    ensures DistinctIndices(AddAll(Outcome(b, true), c, true).outputs)
    ensures Same(AddAll(a, AddAll(Outcome(b, true), c, true).outputs, true), AddAll(AddAll(a, b, true), c, true))
    decreases |c|
  {
    hide AddOne, DistinctIndices;
    if c != [] {
      var most, last := c[..|c| - 1], c[|c| - 1];
      var before := AddAll(Outcome(b, true), most, true);
      if !before.ok {
        StaysFailed(before, last);
      } else {
        MergingIsAssociative(a, b, most);
        assert before == Outcome(before.outputs, true);
        AddOneInside(a, before.outputs, last);
        DistinctKept(before, last, true);
        SameStep(AddAll(a, before.outputs, true), AddAll(AddAll(a, b, true), most, true), last);
      }
    }
  }

  // ----- What a whole stream adds up to

  ghost function FirstSeen(pieces: seq<Piece>): seq<nat> {
    if pieces == [] then []
    else
      var seen := FirstSeen(pieces[..|pieces| - 1]);
      var index := pieces[|pieces| - 1].index;
      if index in seen then seen else seen + [index]
  }

  ghost function TextOf(pieces: seq<Piece>, index: nat): string {
    if pieces == [] then ""
    else
      var last := pieces[|pieces| - 1];
      TextOf(pieces[..|pieces| - 1], index) + if last.index == index then last.text else ""
  }

  ghost function TokensOf(pieces: seq<Piece>, index: nat): seq<int> {
    if pieces == [] then []
    else
      var last := pieces[|pieces| - 1];
      TokensOf(pieces[..|pieces| - 1], index) + if last.index == index then last.tokens else []
  }

  ghost function EntriesOf(pieces: seq<Piece>, index: nat): seq<real> {
    if pieces == [] then []
    else
      var last := pieces[|pieces| - 1];
      EntriesOf(pieces[..|pieces| - 1], index)
      + if last.index == index && last.logprobs.Some? then last.logprobs.value else []
  }

  ghost function FirstOf(pieces: seq<Piece>, index: nat): Option<Piece> {
    if pieces == [] then None
    else
      var last := pieces[|pieces| - 1];
      var first := FirstOf(pieces[..|pieces| - 1], index);
      if first == None && last.index == index then Some(last) else first
  }

  ghost function LastOf(pieces: seq<Piece>, index: nat): Option<Piece> {
    if pieces == [] then None
    else if pieces[|pieces| - 1].index == index then Some(pieces[|pieces| - 1])
    else LastOf(pieces[..|pieces| - 1], index)
  }

  lemma {:induction false} SeenHasEnds(pieces: seq<Piece>, index: nat)
    ensures index in FirstSeen(pieces) <==> FirstOf(pieces, index).Some?
    ensures index in FirstSeen(pieces) <==> LastOf(pieces, index).Some?
    ensures index !in FirstSeen(pieces) ==>
              TextOf(pieces, index) == "" && TokensOf(pieces, index) == [] && EntriesOf(pieces, index) == []
  {
    if pieces != [] {
      SeenHasEnds(pieces[..|pieces| - 1], index);
    }
  }

  /** `x` is everything the stream said about an index. */
  ghost predicate Tells(x: Piece, pieces: seq<Piece>, index: nat) {
    && x.index == index
    && x.text == TextOf(pieces, index) && x.tokens == TokensOf(pieces, index)
    && var first, last := FirstOf(pieces, index), LastOf(pieces, index);
    && first.Some? && last.Some?
    && x.logprobs == (if first.value.logprobs.Some? then Some(EntriesOf(pieces, index)) else None)
    && Accepts(pieces, index)
    && x.cumulative == last.value.cumulative
    && x.finishReason == last.value.finishReason && x.stopReason == last.value.stopReason
  }

  /** The stream never brings log probabilities for an index that started without them. */
  ghost predicate Accepts(pieces: seq<Piece>, index: nat) {
    var first := FirstOf(pieces, index);
    first.Some? && first.value.logprobs == None ==> EntriesOf(pieces, index) == []
  }

  ghost predicate Summarises(outputs: seq<Piece>, pieces: seq<Piece>) {
    && |outputs| == |FirstSeen(pieces)|
    && (forall k :: 0 <= k < |outputs| ==> Tells(outputs[k], pieces, FirstSeen(pieces)[k]))
  }

  lemma TellsStep(x: Piece, most: seq<Piece>, y: Piece, index: nat)
    requires Tells(x, most, index)
    ensures y.index != index ==> Tells(x, most + [y], index)
    ensures y.index == index && Mergeable(x, y) ==> Tells(Merged(x, y), most + [y], index)
    ensures Accepts(most + [y], index) <==> y.index != index || Mergeable(x, y)
  {
    assert (most + [y])[..|most|] == most;
    assert TextOf(most, index) + "" == TextOf(most, index);
    assert TokensOf(most, index) + [] == TokensOf(most, index);
    assert EntriesOf(most, index) + [] == EntriesOf(most, index);
  }

  lemma TellsFirst(most: seq<Piece>, y: Piece)
    requires y.index !in FirstSeen(most)
    ensures Tells(y, most + [y], y.index) && Accepts(most + [y], y.index)
  {
    assert (most + [y])[..|most|] == most;
    SeenHasEnds(most, y.index);
    assert "" + y.text == y.text && [] + y.tokens == y.tokens;
    if y.logprobs.Some? {
      assert [] + y.logprobs.value == y.logprobs.value;
    }
  }

  lemma SeenStep(most: seq<Piece>, y: Piece)
    ensures FirstSeen(most + [y]) == if y.index in FirstSeen(most) then FirstSeen(most) else FirstSeen(most) + [y.index]
  {
    assert (most + [y])[..|most|] == most;
  }

  lemma SeenAt(outputs: seq<Piece>, pieces: seq<Piece>, index: nat)
    requires Summarises(outputs, pieces)
    ensures index in FirstSeen(pieces) <==> Has(outputs, index)
    ensures forall k :: 0 <= k < |outputs| ==> outputs[k].index == FirstSeen(pieces)[k]
  {
    hide FirstSeen;
    assert forall k :: 0 <= k < |outputs| ==> outputs[k].index == FirstSeen(pieces)[k];
  }

  lemma {:induction false} SeenDistinct(pieces: seq<Piece>)
    ensures forall i, j :: 0 <= i < j < |FirstSeen(pieces)| ==> FirstSeen(pieces)[i] != FirstSeen(pieces)[j]
  {
    if pieces != [] {
      SeenDistinct(pieces[..|pieces| - 1]);
    }
  }

  /** One more piece: the merge goes on summarising the stream, or stops because the stream is not acceptable. */
  lemma SummaryStep(outputs: seq<Piece>, most: seq<Piece>, y: Piece)
    requires Summarises(outputs, most)
    ensures var after := AddOne(Outcome(outputs, true), y, true);
            && (after.ok <==> Accepts(most + [y], y.index))
            && (after.ok ==> Summarises(after.outputs, most + [y]))
  {
    hide Tells, Accepts, Merged, HalfMerged, Mergeable, FirstSeen;
    var after := AddOne(Outcome(outputs, true), y, true);
    SeenAt(outputs, most, y.index);
    SeenStep(most, y);
    SeenDistinct(most);
    if !Has(outputs, y.index) {
      TellsFirst(most, y);
    }
    forall k | 0 <= k < |outputs|
      ensures outputs[k].index == y.index <==> Has(outputs, y.index) && k == Find(outputs, y.index)
    {
    }
    forall k | 0 <= k < |outputs|
      ensures after.ok && k < |after.outputs| ==> Tells(after.outputs[k], most + [y], FirstSeen(most)[k])
      ensures k == Find(outputs, y.index) ==> (Accepts(most + [y], y.index) <==> Mergeable(outputs[k], y))
    {
      TellsStep(outputs[k], most, y, FirstSeen(most)[k]);
    }
  }

  /**
    What a stream of completion pieces adds up to. The merge succeeds exactly when no index that
    began without log probabilities later brings some; then there is one completion per index, in
    the order the indices first appeared, holding everything the stream said about it.
   */
  lemma {:induction false} StreamIsSummarised(pieces: seq<Piece>)
    ensures AddAll(Outcome([], true), pieces, true).ok <==> forall index: nat :: Accepts(pieces, index)
    ensures AddAll(Outcome([], true), pieces, true).ok ==>
              Summarises(AddAll(Outcome([], true), pieces, true).outputs, pieces)
  {
    hide Accepts, Summarises;
    if pieces == [] {
      EmptyStream();
    } else {
      var most, y := pieces[..|pieces| - 1], pieces[|pieces| - 1];
      assert most + [y] == pieces;
      StreamIsSummarised(most);
      var before := AddAll(Outcome([], true), most, true);
      if before.ok {
        SummaryStep(before.outputs, most, y);
        forall index: nat | index != y.index
          ensures Accepts(pieces, index)
        {
          AcceptsOther(most, y, index);
        }
      } else {
        var index: nat :| !Accepts(most, index);
        RefusalStays(most, y, index);
      }
    }
  }

  lemma EmptyStream()
    ensures Summarises([], []) && forall index: nat :: Accepts([], index)
  {
  }

  lemma AcceptsOther(most: seq<Piece>, y: Piece, index: nat)
    requires index != y.index && Accepts(most, index)
    ensures Accepts(most + [y], index)
  {
    assert (most + [y])[..|most|] == most;
  }

  lemma RefusalStays(most: seq<Piece>, y: Piece, index: nat)
    requires !Accepts(most, index)
    ensures !Accepts(most + [y], index)
  {
    assert (most + [y])[..|most|] == most;
  }

  /**
    What a stream that stops at piece `n` leaves behind: everything before it is summarised, except
    that the completion it was for already has its text and tokens.
   */
  ghost predicate StoppedAt(outputs: seq<Piece>, pieces: seq<Piece>, n: nat)
    requires n < |pieces|
  {
    var most, seen := pieces[..n], FirstSeen(pieces[..n]);
    && !Accepts(pieces[..n + 1], pieces[n].index) && (forall index: nat :: Accepts(most, index))
    && |outputs| == |seen|
    && (forall k :: 0 <= k < |outputs| ==>
          if seen[k] != pieces[n].index then Tells(outputs[k], most, seen[k])
          else exists told :: Tells(told, most, seen[k]) && outputs[k] == told.(text := TextOf(pieces[..n + 1], seen[k]),
                                                                              tokens := TokensOf(pieces[..n + 1], seen[k])))
  }

  lemma HalfMergedTells(x: Piece, most: seq<Piece>, y: Piece)
    requires Tells(x, most, y.index)
    ensures HalfMerged(x, y) == x.(text := TextOf(most + [y], y.index), tokens := TokensOf(most + [y], y.index))
  {
    assert (most + [y])[..|most|] == most;
  }

  lemma StopsHere(outputs: seq<Piece>, most: seq<Piece>, y: Piece)
    requires Summarises(outputs, most) && !AddOne(Outcome(outputs, true), y, true).ok
    requires forall index: nat :: Accepts(most, index)
    ensures StoppedAt(AddOne(Outcome(outputs, true), y, true).outputs, most + [y], |most|)
  {
    hide Tells, Accepts, Merged, HalfMerged, Mergeable, FirstSeen, TextOf, TokensOf;
    var pieces := most + [y];
    assert pieces[..|most|] == most && pieces[..|most| + 1] == pieces;
    SummaryStep(outputs, most, y);
    SeenAt(outputs, most, y.index);
    SeenDistinct(most);
    var after := AddOne(Outcome(outputs, true), y, true).outputs;
    forall k | 0 <= k < |after| && FirstSeen(most)[k] == y.index
      ensures Tells(outputs[k], most, y.index)
      ensures after[k] == outputs[k].(text := TextOf(pieces, y.index), tokens := TokensOf(pieces, y.index))
    {
      FindIs(outputs, y.index, k);
      HalfMergedTells(outputs[k], most, y);
    }
  }

  /** A stream that does not add up stops at its first piece that is not acceptable, and leaves the rest unread. */
  lemma {:induction false} RefusedStreamStops(pieces: seq<Piece>)
    requires !AddAll(Outcome([], true), pieces, true).ok
    ensures exists n :: 0 <= n < |pieces| && StoppedAt(AddAll(Outcome([], true), pieces, true).outputs, pieces, n)
  {
    hide StoppedAt, Summarises, Accepts, AddOne;
    var most, y := pieces[..|pieces| - 1], pieces[|pieces| - 1];
    var before := AddAll(Outcome([], true), most, true);
    StreamIsSummarised(most);
    if before.ok {
      StopsHere(before.outputs, most, y);
      assert most + [y] == pieces;
    } else {
      RefusedStreamStops(most);
      StaysFailed(before, y);
      var n :| 0 <= n < |most| && StoppedAt(before.outputs, most, n);
      StopStays(before.outputs, pieces, n);
    }
  }

  lemma StopStays(outputs: seq<Piece>, pieces: seq<Piece>, n: nat)
    requires n < |pieces| - 1 && StoppedAt(outputs, pieces[..|pieces| - 1], n)
    ensures StoppedAt(outputs, pieces, n)
  {
    hide Tells, Accepts, FirstSeen, TextOf, TokensOf;
    var most := pieces[..|pieces| - 1];
    assert most[..n] == pieces[..n] && most[..n + 1] == pieces[..n + 1] && most[n] == pieces[n];
  }

  /** Completions with distinct indices are their own merge, so a stream may start from any of them. */
  lemma {:induction false} DistinctIsMerged(outputs: seq<Piece>)
    requires DistinctIndices(outputs)
    ensures AddAll(Outcome([], true), outputs, true) == Outcome(outputs, true)
  {
    if outputs != [] {
      var n := |outputs| - 1;
      DistinctIsMerged(outputs[..n]);
      FindMissing(outputs[..n], outputs[n].index);
      assert outputs[..n] + [outputs[n]] == outputs;
    }
  }

  /** Without aggregation every index holds the latest completion sent for it. */
  lemma {:induction false} ReplacingKeepsTheLatest(pieces: seq<Piece>)
    ensures var after := AddAll(Outcome([], true), pieces, false);
            && after.ok && |after.outputs| == |FirstSeen(pieces)|
            && (forall k :: 0 <= k < |after.outputs| ==>
                 after.outputs[k].index == FirstSeen(pieces)[k] && Some(after.outputs[k]) == LastOf(pieces, FirstSeen(pieces)[k]))
  {
    if pieces != [] {
      var most, y := pieces[..|pieces| - 1], pieces[|pieces| - 1];
      ReplacingKeepsTheLatest(most);
      var before := AddAll(Outcome([], true), most, false);
      SeenDistinct(most);
      if y.index in FirstSeen(most) {
        var k :| 0 <= k < |FirstSeen(most)| && FirstSeen(most)[k] == y.index;
        FindIs(before.outputs, y.index, k);
      } else {
        FindMissing(before.outputs, y.index);
      }
    }
  }

  // ----- Associativity needs distinct indices in the middle

  /** Merging `b` with `c` first makes no difference, whatever they are added to. */
  ghost predicate Associative(b: seq<Piece>) {
    forall a: Outcome, c: seq<Piece> :: AddAll(Outcome(b, true), c, true).ok ==>
      Same(AddAll(a, AddAll(Outcome(b, true), c, true).outputs, true), AddAll(AddAll(a, b, true), c, true))
  }

  /** Every completion takes log probabilities and every index of `pieces` is present. */
  ghost predicate TakesAll(state: Outcome, pieces: seq<Piece>) {
    && state.ok
    && (forall k :: 0 <= k < |state.outputs| ==> state.outputs[k].logprobs.Some?)
    && (forall k :: 0 <= k < |pieces| ==> Has(state.outputs, pieces[k].index))
  }

  ghost function FinishOf(state: Outcome, index: nat): Option<string>
    requires Has(state.outputs, index)
  {
    state.outputs[Find(state.outputs, index)].finishReason
  }

  lemma FinishStep(state: Outcome, y: Piece, index: nat)
    requires TakesAll(state, [y]) && Has(state.outputs, index)
    ensures TakesAll(AddOne(state, y, true), []) && Has(AddOne(state, y, true).outputs, index)
    ensures FinishOf(AddOne(state, y, true), index) == if y.index == index then y.finishReason else FinishOf(state, index)
  {
    assert Has(state.outputs, [y][0].index);
    FindAfterAdd(state, y, true, index);
  }

  lemma {:induction false} FinishIsLatest(state: Outcome, pieces: seq<Piece>, index: nat)
    requires TakesAll(state, pieces) && Has(state.outputs, index)
    ensures TakesAll(AddAll(state, pieces, true), []) && Has(AddAll(state, pieces, true).outputs, index)
    ensures forall i: nat :: Has(state.outputs, i) ==> Has(AddAll(state, pieces, true).outputs, i)
    ensures FinishOf(AddAll(state, pieces, true), index)
            == if LastOf(pieces, index).Some? then LastOf(pieces, index).value.finishReason else FinishOf(state, index)
  {
    hide AddOne, Has;
    if pieces != [] {
      var most, y := pieces[..|pieces| - 1], pieces[|pieces| - 1];
      FinishIsLatest(state, most, index);
      var before := AddAll(state, most, true);
      FinishStep(before, y, index);
      forall i: nat | Has(state.outputs, i)
        ensures Has(AddOne(before, y, true).outputs, i)
      {
        FinishStep(before, y, i);
      }
    }
  }

  lemma {:induction false} LastOfUpdate(b: seq<Piece>, f: nat, w: Piece, j: nat, index: nat)
    requires f < j < |b| && b[j].index == index
    ensures LastOf(b[f := w], index) == LastOf(b, index)
    ensures LastOf(b, index).Some?
  {
    var n := |b| - 1;
    if b[n].index != index {
      assert b[f := w][..n] == b[..n][f := w];
      LastOfUpdate(b[..n], f, w, j, index);
    }
  }

  lemma AddSingle(state: Outcome, y: Piece)
    ensures AddAll(state, [y], true) == AddOne(state, y, true)
  {
    assert [y][..0] == [];
  }

  lemma FinishMergedIn(b: seq<Piece>, z: Piece, j: nat)
    requires j < |b| && Find(b, z.index) < j && b[j].index == z.index && z.logprobs == None
    ensures var after := AddOne(Outcome(b, true), z, true);
            && after.ok && |after.outputs| == |b| && LastOf(after.outputs, z.index) == LastOf(b, z.index)
            && (forall k :: 0 <= k < |b| ==> after.outputs[k].index == b[k].index)
    ensures LastOf(b, z.index).Some?
  {
    hide LastOf;
    var f := Find(b, z.index);
    LastOfUpdate(b, f, Merged(b[f], z), j, z.index);
  }

  /** A completion per piece, all of them taking log probabilities. */
  lemma Receivers(b: seq<Piece>) returns (a: Outcome)
    ensures forall pieces: seq<Piece> {:trigger TakesAll(a, pieces)} ::
              |pieces| == |b| && (forall k :: 0 <= k < |b| ==> pieces[k].index == b[k].index) ==> TakesAll(a, pieces)
  {
    a := Outcome(seq(|b|, k requires 0 <= k < |b| => Piece(b[k].index, "", [], Some([]), None, None, None)), true);
    forall k | 0 <= k < |b|
      ensures Has(a.outputs, b[k].index)
    {
      assert a.outputs[k].index == b[k].index;
    }
  }

  lemma RepeatedIndexBreaks(b: seq<Piece>, i: nat, j: nat)
    requires i < j < |b| && b[i].index == b[j].index
    ensures !Associative(b)
  {
    hide AddOne, AddAll, LastOf, FinishOf, Has;
    var index := b[i].index;
    var a := Receivers(b);
    LastOfUpdate(b, i, b[i], j, index);
    var finish := if LastOf(b, index).value.finishReason == None then Some("stop") else None;
    var z := Piece(index, "", [], None, None, finish, None);
    var c := [z];
    FinishMergedIn(b, z, j);
    AddSingle(Outcome(b, true), z);
    var merged := AddAll(Outcome(b, true), c, true).outputs;
    assert TakesAll(a, b) && TakesAll(a, merged);
    assert Has(a.outputs, b[i].index);
    FinishIsLatest(a, merged, index);
    FinishIsLatest(a, b, index);
    FinishStep(AddAll(a, b, true), z, index);
    AddSingle(AddAll(a, b, true), z);
    assert FinishOf(AddAll(a, merged, true), index) != FinishOf(AddAll(AddAll(a, b, true), c, true), index);
  }

  /** The merge order is invisible exactly for deltas that carry each index once. */
  lemma AssociativeExactlyWhenDistinct(b: seq<Piece>)
    ensures Associative(b) <==> DistinctIndices(b)
  {
    hide AddAll, Same;
    if DistinctIndices(b) {
      forall a: Outcome, c: seq<Piece> | AddAll(Outcome(b, true), c, true).ok
        ensures Same(AddAll(a, AddAll(Outcome(b, true), c, true).outputs, true), AddAll(AddAll(a, b, true), c, true))
      {
        MergingIsAssociative(a, b, c);
      }
    } else {
      var i, j :| 0 <= i < j < |b| && b[i].index == b[j].index;
      RepeatedIndexBreaks(b, i, j);
    }
  }
}
