/**
  The host side of expert dispatch: where each routed entry sits among the entries of its expert,
  and where the tokens received for each expert from each rank are placed.
 */
module DispatchLayout {
  import opened Arithmetic

  // ----- Send indices

  /** How many of the first `upTo` entries go to `expert`. */
  ghost function CountUpTo(topk: seq<int>, expert: int, upTo: nat): nat
    requires upTo <= |topk|
  {
    if upTo == 0 then 0 else CountUpTo(topk, expert, upTo - 1) + if topk[upTo - 1] == expert then 1 else 0
  }

  lemma {:induction false} CountGrows(topk: seq<int>, expert: int, a: nat, b: nat)
    requires a <= b <= |topk|
    ensures CountUpTo(topk, expert, a) <= CountUpTo(topk, expert, b)
  {
    if a < b {
      CountGrows(topk, expert, a, b - 1);
    }
  }

  /** Every rank below the count is taken by some entry. */
  lemma {:induction false} RankTaken(topk: seq<int>, expert: int, upTo: nat, k: nat) returns (p: nat)
    requires upTo <= |topk| && k < CountUpTo(topk, expert, upTo)
    ensures p < upTo && topk[p] == expert && CountUpTo(topk, expert, p) == k
  {
    if topk[upTo - 1] == expert && CountUpTo(topk, expert, upTo - 1) == k {
      p := upTo - 1;
    } else {
      p := RankTaken(topk, expert, upTo - 1, k);
    }
  }

  /** The send index of every routed entry is its rank among the entries of its expert. */
  ghost predicate SendIndices(topk: seq<int>, sent: seq<int>) {
    && |sent| == |topk|
    && (forall p :: 0 <= p < |topk| && topk[p] >= 0 ==> sent[p] == CountUpTo(topk, topk[p], p))
  }

  ghost predicate Numbered(topk: seq<int>, sent: seq<int>, expert: int, k: nat)
    requires |sent| == |topk|
  {
    exists p :: 0 <= p < |topk| && topk[p] == expert && sent[p] == k
  }

  /**
    For every expert the send indices are exactly `0..count`, each once and in row-major order, so
    an expert and a send index identify one entry.
   */
  lemma SendIndicesNumberEntries(topk: seq<int>, sent: seq<int>, expert: nat)
    requires SendIndices(topk, sent)
    ensures forall p :: 0 <= p < |topk| && topk[p] == expert ==> 0 <= sent[p] < CountUpTo(topk, expert, |topk|)
    ensures forall p, q :: 0 <= p < q < |topk| && topk[p] == topk[q] == expert ==> sent[p] < sent[q]
    ensures forall k: nat :: k < CountUpTo(topk, expert, |topk|) ==> Numbered(topk, sent, expert, k)
  {
    forall p | 0 <= p < |topk| && topk[p] == expert
      ensures 0 <= sent[p] < CountUpTo(topk, expert, |topk|)
    {
      CountGrows(topk, expert, p + 1, |topk|);
    }
    forall p, q | 0 <= p < q < |topk| && topk[p] == topk[q] == expert
      ensures sent[p] < sent[q]
    {
      CountGrows(topk, expert, p + 1, q);
    }
    forall k: nat | k < CountUpTo(topk, expert, |topk|)
      ensures Numbered(topk, sent, expert, k)
    {
      var p := RankTaken(topk, expert, |topk|, k);
    }
  }

  method AssignSendIndices(topk: array<int>, tokens: nat, width: nat, experts: nat, sent: array<int>)
    requires topk.Length == sent.Length == tokens * width && topk != sent
    requires forall p :: 0 <= p < topk.Length ==> topk[p] < experts
    modifies sent
    ensures SendIndices(topk[..], sent[..])
    ensures forall p :: 0 <= p < topk.Length && topk[p] < 0 ==> sent[p] == old(sent[p])
  {
    ghost var entries := topk[..];
    var acc: seq<nat> := seq(experts, e => 0);
    for i := 0 to tokens
      invariant i * width <= tokens * width
      invariant Progress(entries, sent[..], old(sent[..]), acc, experts, i * width)
    {
      RowInside(i, tokens, width);
      for j := 0 to width
        invariant Progress(entries, sent[..], old(sent[..]), acc, experts, i * width + j)
      {
        var p := i * width + j;
        var expert := topk[p];
        assert expert == entries[p];
        if expert >= 0 {
          var count := acc[expert];
          sent[p] := count;
          acc := acc[expert := count + 1];
        }
      }
    }
  }

  lemma RowInside(i: nat, tokens: nat, width: nat)
    requires i < tokens
    ensures i * width + width == (i + 1) * width <= tokens * width
  {
    Scale(i + 1, tokens, width);
  }

  ghost predicate Progress(topk: seq<int>, sent: seq<int>, before: seq<int>, acc: seq<nat>, experts: nat, upTo: nat) {
    && |sent| == |before| == |topk| && upTo <= |topk| && |acc| == experts
    && (forall e :: 0 <= e < experts ==> acc[e] == CountUpTo(topk, e, upTo))
    && (forall p :: 0 <= p < upTo && topk[p] >= 0 ==> sent[p] == CountUpTo(topk, topk[p], p))
    && (forall p :: 0 <= p < |topk| && (upTo <= p || topk[p] < 0) ==> sent[p] == before[p])
  }

  // ----- Receive layout

  /** Words per (source rank, local expert) pair of the notify exchange: count, offset, tokens of the rank. */
  const GROUP: nat := 3

  ghost predicate Shaped(recv: seq<int>, ranks: nat, experts: nat) {
    |recv| == GROUP * (ranks * experts)
  }

  /** Where a pair is stored: by source rank, then by local expert. */
  function Stored(ranks: nat, experts: nat, expert: nat, rank: nat): (p: nat)
    requires expert < experts && rank < ranks
    ensures p < ranks * experts
  {
    PairInside(rank, expert, ranks, experts);
    rank * experts + expert
  }

  /** Where a pair is placed: by local expert, then by source rank. */
  function Placed(ranks: nat, experts: nat, expert: nat, rank: nat): (p: nat)
    requires expert < experts && rank < ranks
    ensures p < experts * ranks
  {
    PairInside(expert, rank, experts, ranks);
    expert * ranks + rank
  }

  /** Both numberings of the pairs are one-to-one, so the layout is a transposition. */
  lemma LayoutIsTransposition(ranks: nat, experts: nat, e: nat, r: nat, e': nat, r': nat)
    requires e < experts && r < ranks && e' < experts && r' < ranks
    ensures Stored(ranks, experts, e, r) == Stored(ranks, experts, e', r') <==> e == e' && r == r'
    ensures Placed(ranks, experts, e, r) == Placed(ranks, experts, e', r') <==> e == e' && r == r'
  {
    if Stored(ranks, experts, e, r) == Stored(ranks, experts, e', r') {
      PairUnique(r, e, r', e', experts);
    }
    if Placed(ranks, experts, e, r) == Placed(ranks, experts, e', r') {
      PairUnique(e, r, e', r', ranks);
    }
  }

  /** Every place is the place of some pair, in both numberings, so each of them is a bijection. */
  lemma EveryPlaceIsHit(ranks: nat, experts: nat, p: nat)
    requires p < ranks * experts
    ensures ranks > 0 && experts > 0
    ensures p % experts < experts && p / experts < ranks && Stored(ranks, experts, p % experts, p / experts) == p
    ensures p / ranks < experts && p % ranks < ranks && Placed(ranks, experts, p / ranks, p % ranks) == p
  {
    CellOf(p, ranks, experts);
    CellOf(p, experts, ranks);
  }

  ghost function Received(recv: seq<int>, ranks: nat, experts: nat, e: nat, r: nat): int
    requires Shaped(recv, ranks, experts) && e < experts && r < ranks
  {
    recv[GROUP * Stored(ranks, experts, e, r)]
  }

  ghost function RankTokens(recv: seq<int>, ranks: nat, experts: nat, e: nat, r: nat): int
    requires Shaped(recv, ranks, experts) && e < experts && r < ranks
  {
    recv[GROUP * Stored(ranks, experts, e, r) + 2]
  }

  /** Tokens received for expert `e` from ranks below `upTo`. */
  ghost function ExpertSum(recv: seq<int>, ranks: nat, experts: nat, e: nat, upTo: nat): int
    requires Shaped(recv, ranks, experts) && e < experts && upTo <= ranks
  {
    if upTo == 0 then 0 else ExpertSum(recv, ranks, experts, e, upTo - 1) + Received(recv, ranks, experts, e, upTo - 1)
  }

  /** Tokens received for experts below `upTo`. */
  ghost function Total(recv: seq<int>, ranks: nat, experts: nat, upTo: nat): int
    requires Shaped(recv, ranks, experts) && upTo <= experts
  {
    if upTo == 0 then 0 else Total(recv, ranks, experts, upTo - 1) + ExpertSum(recv, ranks, experts, upTo - 1, ranks)
  }

  /** Where the tokens of a pair end in the receive buffer. */
  ghost function SegmentEnd(recv: seq<int>, ranks: nat, experts: nat, e: nat, r: nat): int
    requires Shaped(recv, ranks, experts) && e < experts && r < ranks
  {
    Total(recv, ranks, experts, e) + ExpertSum(recv, ranks, experts, e, r + 1)
  }

  /** Where the tokens of a pair begin. */
  ghost function SegmentStart(recv: seq<int>, ranks: nat, experts: nat, e: nat, r: nat): int
    requires Shaped(recv, ranks, experts) && e < experts && r < ranks
  {
    Total(recv, ranks, experts, e) + ExpertSum(recv, ranks, experts, e, r)
  }

  ghost predicate NonNegative(recv: seq<int>, ranks: nat, experts: nat)
    requires Shaped(recv, ranks, experts)
  {
    forall e, r :: 0 <= e < experts && 0 <= r < ranks ==> Received(recv, ranks, experts, e, r) >= 0
  }

  lemma {:induction false} ExpertSumGrows(recv: seq<int>, ranks: nat, experts: nat, e: nat, a: nat, b: nat)
    requires Shaped(recv, ranks, experts) && NonNegative(recv, ranks, experts) && e < experts && a <= b <= ranks
    ensures ExpertSum(recv, ranks, experts, e, a) <= ExpertSum(recv, ranks, experts, e, b)
  {
    hide Received;
    if a < b {
      ExpertSumGrows(recv, ranks, experts, e, a, b - 1);
    }
  }

  lemma {:induction false} TotalGrows(recv: seq<int>, ranks: nat, experts: nat, a: nat, b: nat)
    requires Shaped(recv, ranks, experts) && NonNegative(recv, ranks, experts) && a <= b <= experts
    ensures Total(recv, ranks, experts, a) <= Total(recv, ranks, experts, b)
  {
    hide Received;
    if a < b {
      TotalGrows(recv, ranks, experts, a, b - 1);
      ExpertSumGrows(recv, ranks, experts, b - 1, 0, ranks);
    }
  }

  /** The pair placed earlier ends before the later one begins. */
  lemma SegmentsInOrder(recv: seq<int>, ranks: nat, experts: nat, e: nat, r: nat, e': nat, r': nat)
    requires Shaped(recv, ranks, experts) && NonNegative(recv, ranks, experts)
    requires e < experts && r < ranks && e' < experts && r' < ranks
    requires e < e' || (e == e' && r < r')
    ensures SegmentEnd(recv, ranks, experts, e, r) <= SegmentStart(recv, ranks, experts, e', r')
  {
    hide Received;
    if e == e' {
      ExpertSumGrows(recv, ranks, experts, e, r + 1, r');
    } else {
      ExpertSumGrows(recv, ranks, experts, e, r + 1, ranks);
      TotalGrows(recv, ranks, experts, e + 1, e');
      ExpertSumGrows(recv, ranks, experts, e', 0, r');
    }
  }

  ghost predicate InSegment(recv: seq<int>, ranks: nat, experts: nat, e: nat, r: nat, x: int)
    requires Shaped(recv, ranks, experts) && e < experts && r < ranks
  {
    SegmentStart(recv, ranks, experts, e, r) <= x < SegmentEnd(recv, ranks, experts, e, r)
  }

  lemma {:induction false} SegmentWithinExpert(recv: seq<int>, ranks: nat, experts: nat, e: nat, upTo: nat, x: int)
    returns (r: nat)
    requires Shaped(recv, ranks, experts) && e < experts && upTo <= ranks
    requires Total(recv, ranks, experts, e) <= x < Total(recv, ranks, experts, e) + ExpertSum(recv, ranks, experts, e, upTo)
    ensures r < upTo && InSegment(recv, ranks, experts, e, r, x)
  {
    hide Received;
    if Total(recv, ranks, experts, e) + ExpertSum(recv, ranks, experts, e, upTo - 1) <= x {
      r := upTo - 1;
    } else {
      r := SegmentWithinExpert(recv, ranks, experts, e, upTo - 1, x);
    }
  }

  lemma {:induction false} SegmentOf(recv: seq<int>, ranks: nat, experts: nat, upTo: nat, x: int)
    returns (e: nat, r: nat)
    requires Shaped(recv, ranks, experts) && upTo <= experts && 0 <= x < Total(recv, ranks, experts, upTo)
    ensures e < upTo && r < ranks && InSegment(recv, ranks, experts, e, r, x)
  {
    hide Received;
    if Total(recv, ranks, experts, upTo - 1) <= x {
      e := upTo - 1;
      r := SegmentWithinExpert(recv, ranks, experts, e, ranks, x);
    } else {
      e, r := SegmentOf(recv, ranks, experts, upTo - 1, x);
    }
  }

  /** The segments tile the receive buffer: every received token lies in exactly one of them. */
  lemma SegmentsTile(recv: seq<int>, ranks: nat, experts: nat, x: int) returns (e: nat, r: nat)
    requires Shaped(recv, ranks, experts) && NonNegative(recv, ranks, experts)
    requires 0 <= x < Total(recv, ranks, experts, experts)
    ensures e < experts && r < ranks && InSegment(recv, ranks, experts, e, r, x)
    ensures forall e', r' :: 0 <= e' < experts && 0 <= r' < ranks && InSegment(recv, ranks, experts, e', r', x) ==>
              e' == e && r' == r
  {
    hide Received, NonNegative;
    e, r := SegmentOf(recv, ranks, experts, experts, x);
    forall e', r' | 0 <= e' < experts && 0 <= r' < ranks && InSegment(recv, ranks, experts, e', r', x)
      ensures e' == e && r' == r
    {
      if e' < e || (e' == e && r' < r) {
        SegmentsInOrder(recv, ranks, experts, e', r', e, r);
      } else if e < e' || (e == e' && r < r') {
        SegmentsInOrder(recv, ranks, experts, e, r, e', r');
      }
    }
  }

  // ----- The same total in storage order

  /** Counts of the first `upTo` stored pairs. */
  ghost function StoredSum(recv: seq<int>, ranks: nat, experts: nat, upTo: nat): int
    requires Shaped(recv, ranks, experts) && upTo <= ranks * experts
  {
    if upTo == 0 then 0 else StoredSum(recv, ranks, experts, upTo - 1) + recv[GROUP * (upTo - 1)]
  }

  /** Tokens received from rank `r` for experts below `upTo`. */
  ghost function RankSum(recv: seq<int>, ranks: nat, experts: nat, r: nat, upTo: nat): int
    requires Shaped(recv, ranks, experts) && r < ranks && upTo <= experts
  {
    if upTo == 0 then 0 else RankSum(recv, ranks, experts, r, upTo - 1) + Received(recv, ranks, experts, upTo - 1, r)
  }

  ghost function RankTotal(recv: seq<int>, ranks: nat, experts: nat, rs: nat, es: nat): int
    requires Shaped(recv, ranks, experts) && rs <= ranks && es <= experts
  {
    if rs == 0 then 0 else RankTotal(recv, ranks, experts, rs - 1, es) + RankSum(recv, ranks, experts, rs - 1, es)
  }

  ghost function ExpertTotal(recv: seq<int>, ranks: nat, experts: nat, rs: nat, es: nat): int
    requires Shaped(recv, ranks, experts) && rs <= ranks && es <= experts
  {
    if es == 0 then 0 else ExpertTotal(recv, ranks, experts, rs, es - 1) + ExpertSum(recv, ranks, experts, es - 1, rs)
  }

  lemma {:induction false} OneMoreExpert(recv: seq<int>, ranks: nat, experts: nat, rs: nat, e: nat)
    requires Shaped(recv, ranks, experts) && rs <= ranks && e < experts
    ensures RankTotal(recv, ranks, experts, rs, e + 1)
            == RankTotal(recv, ranks, experts, rs, e) + ExpertSum(recv, ranks, experts, e, rs)
  {
    hide Received;
    if rs > 0 {
      OneMoreExpert(recv, ranks, experts, rs - 1, e);
    }
  }

  lemma {:induction false} SumsExchange(recv: seq<int>, ranks: nat, experts: nat, rs: nat, es: nat)
    requires Shaped(recv, ranks, experts) && rs <= ranks && es <= experts
    ensures ExpertTotal(recv, ranks, experts, rs, es) == RankTotal(recv, ranks, experts, rs, es)
  {
    hide Received;
    if es == 0 {
      NothingPerRank(recv, ranks, experts, rs);
    } else {
      SumsExchange(recv, ranks, experts, rs, es - 1);
      OneMoreExpert(recv, ranks, experts, rs, es - 1);
    }
  }

  lemma {:induction false} NothingPerRank(recv: seq<int>, ranks: nat, experts: nat, rs: nat)
    requires Shaped(recv, ranks, experts) && rs <= ranks
    ensures RankTotal(recv, ranks, experts, rs, 0) == 0
  {
    hide Received;
    if rs > 0 {
      NothingPerRank(recv, ranks, experts, rs - 1);
    }
  }

  lemma {:induction false} TotalIsExpertTotal(recv: seq<int>, ranks: nat, experts: nat, es: nat)
    requires Shaped(recv, ranks, experts) && es <= experts
    ensures Total(recv, ranks, experts, es) == ExpertTotal(recv, ranks, experts, ranks, es)
  {
    hide Received;
    if es > 0 {
      TotalIsExpertTotal(recv, ranks, experts, es - 1);
    }
  }

  lemma {:induction false} RowInStorage(recv: seq<int>, ranks: nat, experts: nat, r: nat, upTo: nat)
    requires Shaped(recv, ranks, experts) && r < ranks && upTo <= experts
    ensures r * experts + upTo <= ranks * experts
    ensures StoredSum(recv, ranks, experts, r * experts + upTo)
            == StoredSum(recv, ranks, experts, r * experts) + RankSum(recv, ranks, experts, r, upTo)
  {
    RowInside(r, ranks, experts);
    if upTo > 0 {
      RowInStorage(recv, ranks, experts, r, upTo - 1);
    }
  }

  lemma {:induction false} StorageRows(recv: seq<int>, ranks: nat, experts: nat, rs: nat)
    requires Shaped(recv, ranks, experts) && rs <= ranks
    ensures rs * experts <= ranks * experts
    ensures StoredSum(recv, ranks, experts, rs * experts) == RankTotal(recv, ranks, experts, rs, experts)
  {
    hide Received;
    Scale(rs, ranks, experts);
    if rs > 0 {
      StorageRows(recv, ranks, experts, rs - 1);
      RowInStorage(recv, ranks, experts, rs - 1, experts);
      RowInside(rs - 1, ranks, experts);
    }
  }

  /** The running total over experts and ranks equals the sum of all counts as they are stored. */
  lemma TotalIsStoredSum(recv: seq<int>, ranks: nat, experts: nat)
    requires Shaped(recv, ranks, experts)
    ensures Total(recv, ranks, experts, experts) == StoredSum(recv, ranks, experts, ranks * experts)
  {
    hide Received, StoredSum, Total;
    TotalIsExpertTotal(recv, ranks, experts, experts);
    SumsExchange(recv, ranks, experts, ranks, experts);
    StorageRows(recv, ranks, experts, ranks);
  }

  // ----- The host loop

  ghost predicate Before(e: nat, r: nat, expert: nat, rank: nat) {
    e < expert || (e == expert && r < rank)
  }

  /** Every pair before `(expert, rank)` has its running count and its offset in place. */
  ghost predicate Laid(recv: seq<int>, ranks: nat, experts: nat, count: seq<int>, offset: seq<int>, expert: nat, rank: nat)
    requires Shaped(recv, ranks, experts) && |count| == |offset| == experts * ranks
  {
    forall e, r :: 0 <= e < experts && 0 <= r < ranks && Before(e, r, expert, rank) ==>
      && count[Placed(ranks, experts, e, r)] == SegmentEnd(recv, ranks, experts, e, r)
      && offset[Placed(ranks, experts, e, r)] == recv[GROUP * Stored(ranks, experts, e, r) + 1]
  }

  /** `most` is the largest token count of the pairs before `(expert, rank)`, or zero. */
  ghost predicate Most(recv: seq<int>, ranks: nat, experts: nat, most: int, expert: nat, rank: nat)
    requires Shaped(recv, ranks, experts)
  {
    && most >= 0
    && (forall e, r :: 0 <= e < experts && 0 <= r < ranks && Before(e, r, expert, rank) ==>
         RankTokens(recv, ranks, experts, e, r) <= most)
    && (most > 0 ==> exists e, r :: 0 <= e < experts && 0 <= r < ranks && RankTokens(recv, ranks, experts, e, r) == most)
  }

  lemma LaidStep(recv: seq<int>, ranks: nat, experts: nat, count: seq<int>, offset: seq<int>, expert: nat, rank: nat)
    requires Shaped(recv, ranks, experts) && |count| == |offset| == experts * ranks
    requires expert < experts && rank < ranks && Laid(recv, ranks, experts, count, offset, expert, rank)
    ensures var p := Placed(ranks, experts, expert, rank);
            Laid(recv, ranks, experts, count[p := SegmentEnd(recv, ranks, experts, expert, rank)],
                 offset[p := recv[GROUP * Stored(ranks, experts, expert, rank) + 1]], expert, rank + 1)
  {
    hide Placed, Stored, SegmentEnd;
    forall e, r | 0 <= e < experts && 0 <= r < ranks
      ensures Placed(ranks, experts, e, r) == Placed(ranks, experts, expert, rank) <==> e == expert && r == rank
    {
      LayoutIsTransposition(ranks, experts, e, r, expert, rank);
    }
  }

  lemma MostStep(recv: seq<int>, ranks: nat, experts: nat, most: int, expert: nat, rank: nat)
    requires Shaped(recv, ranks, experts) && expert < experts && rank < ranks
    requires Most(recv, ranks, experts, most, expert, rank)
    ensures var tokens := RankTokens(recv, ranks, experts, expert, rank);
            Most(recv, ranks, experts, if tokens > most then tokens else most, expert, rank + 1)
  {
    hide RankTokens;
  }

  lemma NextExpert(recv: seq<int>, ranks: nat, experts: nat, count: seq<int>, offset: seq<int>, most: int, expert: nat)
    requires Shaped(recv, ranks, experts) && |count| == |offset| == experts * ranks
    requires expert < experts
    requires Laid(recv, ranks, experts, count, offset, expert, ranks) && Most(recv, ranks, experts, most, expert, ranks)
    ensures Laid(recv, ranks, experts, count, offset, expert + 1, 0) && Most(recv, ranks, experts, most, expert + 1, 0)
    ensures Total(recv, ranks, experts, expert + 1)
            == Total(recv, ranks, experts, expert) + ExpertSum(recv, ranks, experts, expert, ranks)
  {
    hide Placed, Stored, SegmentEnd, RankTokens;
  }

  /** Tokens of the ranks below `upTo`, as reported beside expert `e`. */
  ghost function TokensSum(recv: seq<int>, ranks: nat, experts: nat, e: nat, upTo: nat): int
    requires Shaped(recv, ranks, experts) && e < experts && upTo <= ranks
  {
    if upTo == 0 then 0 else TokensSum(recv, ranks, experts, e, upTo - 1) + RankTokens(recv, ranks, experts, e, upTo - 1)
  }

  lemma {:induction false} MostCoversRanks(recv: seq<int>, ranks: nat, experts: nat, most: int, e: nat, upTo: nat)
    requires Shaped(recv, ranks, experts) && e < experts && upTo <= ranks
    requires Most(recv, ranks, experts, most, experts, 0)
    ensures TokensSum(recv, ranks, experts, e, upTo) <= most * upTo
  {
    hide RankTokens;
    if upTo > 0 {
      MostCoversRanks(recv, ranks, experts, most, e, upTo - 1);
      assert Before(e, upTo - 1, experts, 0);
      assert most * upTo == most * (upTo - 1) + most;
    }
  }

  function BatchBound(most: int, ranks: nat, worst: int): (bound: int)
    ensures bound >= worst && bound >= most * ranks && (bound == worst || bound == most * ranks)
  {
    if most * ranks > worst then most * ranks else worst
  }

  /** The global batch bound covers the tokens of all source ranks together. */
  lemma BoundCoversRanks(recv: seq<int>, ranks: nat, experts: nat, most: int, worst: int, e: nat)
    requires Shaped(recv, ranks, experts) && e < experts && Most(recv, ranks, experts, most, experts, 0)
    ensures TokensSum(recv, ranks, experts, e, ranks) <= BatchBound(most, ranks, worst)
  {
    hide Most, TokensSum;
    MostCoversRanks(recv, ranks, experts, most, e, ranks);
  }

  /** The global batch bound is the least one: it covers every pair as if all ranks sent as much, and is reached. */
  ghost predicate LeastBound(recv: seq<int>, ranks: nat, experts: nat, worst: int, bound: int)
    requires Shaped(recv, ranks, experts)
  {
    && worst <= bound && 0 <= bound
    && (forall e, r :: 0 <= e < experts && 0 <= r < ranks ==> RankTokens(recv, ranks, experts, e, r) * ranks <= bound)
    && (|| bound == worst || bound == 0
        || exists e, r :: 0 <= e < experts && 0 <= r < ranks && RankTokens(recv, ranks, experts, e, r) * ranks == bound)
  }

  lemma BoundIsLeast(recv: seq<int>, ranks: nat, experts: nat, most: int, worst: int)
    requires Shaped(recv, ranks, experts) && Most(recv, ranks, experts, most, experts, 0)
    ensures LeastBound(recv, ranks, experts, worst, BatchBound(most, ranks, worst))
  {
    hide RankTokens;
    var bound := BatchBound(most, ranks, worst);
    forall e: nat, r: nat | e < experts && r < ranks
      ensures RankTokens(recv, ranks, experts, e, r) * ranks <= bound
    {
      assert Before(e, r, experts, 0);
      NotLess(RankTokens(recv, ranks, experts, e, r), most, ranks);
    }
    NotLess(0, most, ranks);
    if most > 0 {
      var e: nat, r: nat :| e < experts && r < ranks && RankTokens(recv, ranks, experts, e, r) == most;
      assert RankTokens(recv, ranks, experts, e, r) * ranks == most * ranks;
    }
  }

  lemma NotLess(a: int, b: int, n: nat)
    requires a <= b
    ensures a * n <= b * n
  {
  }

  method ReceiveLayout(recv: array<int>, ranks: nat, experts: nat, worst: int, count: array<int>, offset: array<int>)
    returns (total: int, perExpert: seq<int>, globalBs: int)
    requires Shaped(recv[..], ranks, experts) && count.Length == offset.Length == experts * ranks
    requires recv != count && recv != offset && count != offset
    modifies count, offset
    ensures Laid(recv[..], ranks, experts, count[..], offset[..], experts, 0)
    ensures total == Total(recv[..], ranks, experts, experts)
    ensures |perExpert| == experts
    ensures forall e :: 0 <= e < experts ==> perExpert[e] == ExpertSum(recv[..], ranks, experts, e, ranks)
    ensures exists most :: Most(recv[..], ranks, experts, most, experts, 0) && globalBs == BatchBound(most, ranks, worst)
    ensures LeastBound(recv[..], ranks, experts, worst, globalBs)
    ensures forall e: nat :: e < experts ==> TokensSum(recv[..], ranks, experts, e, ranks) <= globalBs
  {
    hide *;
    ghost var words := recv[..];
    total, perExpert := 0, [];
    var most := 0;
    NothingLaid(words, ranks, experts, count[..], offset[..]);
    for expert := 0 to experts
      invariant recv[..] == words
      invariant Laid(words, ranks, experts, count[..], offset[..], expert, 0)
      invariant Most(words, ranks, experts, most, expert, 0)
      invariant total == Total(words, ranks, experts, expert) && |perExpert| == expert
      invariant forall e :: 0 <= e < expert ==> perExpert[e] == ExpertSum(words, ranks, experts, e, ranks)
    {
      var received := 0;
      for rank := 0 to ranks
        invariant recv[..] == words
        invariant Laid(words, ranks, experts, count[..], offset[..], expert, rank)
        invariant Most(words, ranks, experts, most, expert, rank)
        invariant received == ExpertSum(words, ranks, experts, expert, rank)
        invariant total == Total(words, ranks, experts, expert) + received
      {
        LaidStep(words, ranks, experts, count[..], offset[..], expert, rank);
        MostStep(words, ranks, experts, most, expert, rank);
        PairWords(words, ranks, experts, expert, rank);
        var index := Placed(ranks, experts, expert, rank);
        var pair := GROUP * Stored(ranks, experts, expert, rank);
        var n := recv[pair];
        var tokens := recv[pair + 2];
        ghost var counts, offsets := count[..], offset[..];
        total := total + n;
        count[index] := total;
        offset[index] := recv[pair + 1];
        most := if tokens > most then tokens else most;
        received := received + n;
        assert count[..] == counts[index := total] && offset[..] == offsets[index := words[pair + 1]];
      }
      NextExpert(words, ranks, experts, count[..], offset[..], most, expert);
      perExpert := perExpert + [received];
    }
    globalBs := BatchBound(most, ranks, worst);
    BoundIsLeast(words, ranks, experts, most, worst);
    forall e: nat | e < experts
      ensures TokensSum(words, ranks, experts, e, ranks) <= globalBs
    {
      BoundCoversRanks(words, ranks, experts, most, worst, e);
    }
  }

  lemma NothingLaid(recv: seq<int>, ranks: nat, experts: nat, count: seq<int>, offset: seq<int>)
    requires Shaped(recv, ranks, experts) && |count| == |offset| == experts * ranks
    ensures Laid(recv, ranks, experts, count, offset, 0, 0) && Most(recv, ranks, experts, 0, 0, 0)
    ensures Total(recv, ranks, experts, 0) == 0
    ensures forall e: nat :: e < experts ==> ExpertSum(recv, ranks, experts, e, 0) == 0
  {
  }

  lemma PairWords(recv: seq<int>, ranks: nat, experts: nat, e: nat, r: nat)
    requires Shaped(recv, ranks, experts) && e < experts && r < ranks
    ensures var pair := GROUP * Stored(ranks, experts, e, r);
            && 0 <= pair && pair + 2 < |recv| && Received(recv, ranks, experts, e, r) == recv[pair]
            && RankTokens(recv, ranks, experts, e, r) == recv[pair + 2]
    ensures SegmentEnd(recv, ranks, experts, e, r)
            == Total(recv, ranks, experts, e) + ExpertSum(recv, ranks, experts, e, r) + Received(recv, ranks, experts, e, r)
    ensures ExpertSum(recv, ranks, experts, e, r + 1)
            == ExpertSum(recv, ranks, experts, e, r) + Received(recv, ranks, experts, e, r)
  {
    hide Stored;
  }

  /** An expert's tokens are what its segments hold, and the experts' tokens add up to the buffer. */
  lemma ExpertHoldsItsSegments(recv: seq<int>, ranks: nat, experts: nat, e: nat)
    requires Shaped(recv, ranks, experts) && e < experts && ranks > 0
    ensures SegmentStart(recv, ranks, experts, e, 0) == if e == 0 then 0 else SegmentEnd(recv, ranks, experts, e - 1, ranks - 1)
    ensures ExpertSum(recv, ranks, experts, e, ranks)
            == SegmentEnd(recv, ranks, experts, e, ranks - 1) - SegmentStart(recv, ranks, experts, e, 0)
    ensures SegmentEnd(recv, ranks, experts, experts - 1, ranks - 1) == Total(recv, ranks, experts, experts)
  {
    hide Received;
  }
}
