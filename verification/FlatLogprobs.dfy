/**
  Log-probabilities of many positions in six flat lists.  The container is meant to act as a list
  with one dictionary per position.
 */
module FlatLogprobs {
  import Arithmetic
  import opened Options

  datatype Logprob = Logprob(logprob: real, rank: Option<int>, decoded: Option<string>)

  /** A dictionary of one position; a missing one counts as empty. */
  type Position = map<nat, Logprob>

  /** Insertion order of a dictionary, or the order in which one is built. */
  type Entries = seq<(nat, Logprob)>

  /** The dictionary built from entries in order: a repeated key keeps its last value. */
  function DictOf(entries: Entries): Position {
    if entries == [] then map[]
    else var k := |entries| - 1; DictOf(entries[..k])[entries[k].0 := entries[k].1]
  }

  datatype Flat = Flat(
    starts: seq<int>,
    ends: seq<int>,
    tokens: seq<nat>,
    logprobs: seq<real>,
    ranks: seq<Option<int>>,
    decoded: seq<Option<string>>)

  /** Ranges are inside the data, in order, and do not overlap; there may be gaps between them. */
  ghost predicate Valid(f: Flat) {
    && |f.starts| == |f.ends| && |f.tokens| == |f.logprobs| == |f.ranks| == |f.decoded|
    && (forall i :: 0 <= i < |f.starts| ==> 0 <= f.starts[i] <= f.ends[i] <= |f.tokens|)
    && (forall i, j :: 0 <= i < j < |f.starts| ==> f.ends[i] <= f.starts[j])
  }

  function EntryAt(f: Flat, j: nat): (nat, Logprob)
    requires j < |f.tokens| == |f.logprobs| == |f.ranks| == |f.decoded|
  {
    (f.tokens[j], Logprob(f.logprobs[j], f.ranks[j], f.decoded[j]))
  }

  ghost function EntriesIn(f: Flat, lo: nat, hi: nat): Entries
    requires lo <= hi <= |f.tokens| == |f.logprobs| == |f.ranks| == |f.decoded|
  {
    seq(hi - lo, k requires 0 <= k < hi - lo => EntryAt(f, lo + k))
  }

  /** The list of dictionaries the container stands for. */
  ghost function Contents(f: Flat): seq<Position>
    requires Valid(f)
  {
    seq(|f.starts|, i requires 0 <= i < |f.starts| => DictOf(EntriesIn(f, f.starts[i], f.ends[i])))
  }

  // ----- Appending

  function Tokens(entries: Entries): seq<nat> {
    seq(|entries|, k requires 0 <= k < |entries| => entries[k].0)
  }

  function Logprobs(entries: Entries): seq<real> {
    seq(|entries|, k requires 0 <= k < |entries| => entries[k].1.logprob)
  }

  function Ranks(entries: Entries): seq<Option<int>> {
    seq(|entries|, k requires 0 <= k < |entries| => entries[k].1.rank)
  }

  function Decoded(entries: Entries): seq<Option<string>> {
    seq(|entries|, k requires 0 <= k < |entries| => entries[k].1.decoded)
  }

  lemma ColumnsGrow(entries: Entries, k: nat)
    requires k < |entries|
    ensures Tokens(entries[..k + 1]) == Tokens(entries[..k]) + [entries[k].0]
    ensures Logprobs(entries[..k + 1]) == Logprobs(entries[..k]) + [entries[k].1.logprob]
    ensures Ranks(entries[..k + 1]) == Ranks(entries[..k]) + [entries[k].1.rank]
    ensures Decoded(entries[..k + 1]) == Decoded(entries[..k]) + [entries[k].1.decoded]
  {
  }

  function Grown(f: Flat, entries: Entries): Flat {
    Flat(f.starts + [|f.logprobs|], f.ends + [|f.logprobs| + |entries|],
         f.tokens + Tokens(entries), f.logprobs + Logprobs(entries), f.ranks + Ranks(entries), f.decoded + Decoded(entries))
  }

  lemma GrownEntries(f: Flat, entries: Entries, lo: nat, hi: nat)
    requires Valid(f) && lo <= hi <= |f.tokens|
    ensures EntriesIn(Grown(f, entries), lo, hi) == EntriesIn(f, lo, hi)
  {
    forall j | lo <= j < hi
      ensures EntryAt(Grown(f, entries), j) == EntryAt(f, j)
    {
    }
  }

  lemma GrownTail(f: Flat, entries: Entries)
    requires Valid(f)
    ensures EntriesIn(Grown(f, entries), |f.tokens|, |f.tokens| + |entries|) == entries
  {
    hide EntryAt;
    var g, n := Grown(f, entries), |f.tokens|;
    forall k | 0 <= k < |entries|
      ensures EntryAt(g, n + k) == entries[k]
    {
      GrownEntry(f, entries, k);
    }
    assert EntriesIn(g, n, n + |entries|) == entries;
  }

  lemma GrownEntry(f: Flat, entries: Entries, k: nat)
    requires Valid(f) && k < |entries|
    ensures EntryAt(Grown(f, entries), |f.tokens| + k) == entries[k]
  {
  }

  /** Appending adds one dictionary and leaves the others alone, gaps or not. */
  lemma GrownRefines(f: Flat, entries: Entries)
    requires Valid(f)
    ensures Valid(Grown(f, entries)) && Contents(Grown(f, entries)) == Contents(f) + [DictOf(entries)]
  {
    var g := Grown(f, entries);
    hide DictOf, EntriesIn;
    GrownTail(f, entries);
    forall i | 0 <= i < |f.starts|
      ensures EntriesIn(g, g.starts[i], g.ends[i]) == EntriesIn(f, f.starts[i], f.ends[i])
    {
      GrownEntries(f, entries, f.starts[i], f.ends[i]);
    }
  }

  // ----- Reading one position, with Python's indexing

  datatype Read = Found(position: Position) | IndexError

  /** Index into a list of length `n`, counting from the end when negative. */
  function PyIndex(n: nat, j: int): Option<nat> {
    if 0 <= j < n then Some(j) else if 0 <= n + j < n then Some(n + j) else None
  }

  function ReadRange(f: Flat, lo: int, hi: int): Read
    requires |f.tokens| == |f.logprobs| == |f.ranks| == |f.decoded|
    decreases hi - lo
  {
    if hi <= lo then Found(map[])
    else
      var before := ReadRange(f, lo, hi - 1);
      var j := PyIndex(|f.tokens|, hi - 1);
      if before.IndexError? || j.None? then IndexError
      else var e := EntryAt(f, j.value); Found(before.position[e.0 := e.1])
  }

  lemma {:induction false} ReadRangeInside(f: Flat, lo: nat, hi: nat)
    requires lo <= hi <= |f.tokens| == |f.logprobs| == |f.ranks| == |f.decoded|
    ensures ReadRange(f, lo, hi) == Found(DictOf(EntriesIn(f, lo, hi)))
    decreases hi - lo
  {
    if lo < hi {
      ReadRangeInside(f, lo, hi - 1);
      assert EntriesIn(f, lo, hi)[..hi - 1 - lo] == EntriesIn(f, lo, hi - 1);
    }
  }

  lemma {:induction false} ReadRangeNoData(f: Flat, lo: int, hi: int)
    requires |f.tokens| == |f.logprobs| == |f.ranks| == |f.decoded| == 0
    ensures ReadRange(f, lo, hi) == if lo < hi then IndexError else Found(map[])
    decreases hi - lo
  {
    if lo < hi {
      ReadRangeNoData(f, lo, hi - 1);
    }
  }

  // ----- Slices

  function Clamp(x: int, lo: int, hi: int): int {
    if x < lo then lo else if x > hi then hi else x
  }

  /** One bound of a Python slice, resolved against a list of length `n`. */
  function Bound(n: nat, bound: Option<int>, default: int, lo: int, hi: int): int {
    match bound
    case None => default
    case Some(b) => Clamp(if b < 0 then b + n else b, lo, hi)
  }

  datatype Slice = Slice(start: Option<int>, stop: Option<int>, step: int)

  function First(n: nat, s: Slice): int {
    if s.step > 0 then Bound(n, s.start, 0, 0, n) else Bound(n, s.start, n - 1, -1, n - 1)
  }

  function Limit(n: nat, s: Slice): int {
    if s.step > 0 then Bound(n, s.stop, n, 0, n) else Bound(n, s.stop, -1, -1, n - 1)
  }

  /** Positions visited from `at` on. */
  function Visit(at: int, limit: int, step: int): seq<int>
    requires step != 0
    decreases if step > 0 then limit - at else at - limit
  {
    if (step > 0 && at < limit) || (step < 0 && at > limit) then [at] + Visit(at + step, limit, step) else []
  }

  function Picked(n: nat, s: Slice): seq<int>
    requires s.step != 0
  {
    Visit(First(n, s), Limit(n, s), s.step)
  }

  ghost predicate Climbing(picked: seq<int>) {
    forall i, j :: 0 <= i < j < |picked| ==> picked[i] < picked[j]
  }

  ghost predicate Falling(picked: seq<int>) {
    forall i, j :: 0 <= i < j < |picked| ==> picked[j] < picked[i]
  }

  ghost predicate Within(picked: seq<int>, lo: int, hi: int) {
    forall i :: 0 <= i < |picked| ==> lo <= picked[i] < hi
  }

  lemma {:induction false} VisitClimbs(at: int, limit: int, step: int)
    requires step > 0
    ensures Climbing(Visit(at, limit, step)) && Within(Visit(at, limit, step), at, limit)
    decreases limit - at
  {
    if at < limit {
      VisitClimbs(at + step, limit, step);
    }
  }

  lemma {:induction false} VisitFalls(at: int, limit: int, step: int)
    requires step < 0
    ensures Falling(Visit(at, limit, step)) && Within(Visit(at, limit, step), limit + 1, at + 1)
    decreases at - limit
  {
    if at > limit {
      VisitFalls(at + step, limit, step);
    }
  }

  lemma PickedShape(n: nat, s: Slice)
    requires s.step != 0
    ensures Within(Picked(n, s), 0, n)
    ensures if s.step > 0 then Climbing(Picked(n, s)) else Falling(Picked(n, s))
  {
    if s.step > 0 {
      VisitClimbs(First(n, s), Limit(n, s), s.step);
    } else {
      VisitFalls(First(n, s), Limit(n, s), s.step);
    }
  }

  /** An index counted from the end when negative. */
  function FromEnd(n: nat, b: int): int {
    if b < 0 then n + b else b
  }

  /** `p` lies between the bounds of a slice, a whole number of steps from where the slice begins. */
  ghost predicate InSlice(n: nat, s: Slice, p: int)
    requires s.step != 0
  {
    if s.step > 0 then
      var begin := if s.start.None? || FromEnd(n, s.start.value) < 0 then 0 else FromEnd(n, s.start.value);
      begin <= p && (s.stop.Some? ==> p < FromEnd(n, s.stop.value)) && (p - begin) % s.step == 0
    else
      var begin := if s.start.None? || FromEnd(n, s.start.value) >= n then n - 1 else FromEnd(n, s.start.value);
      p <= begin && (s.stop.Some? ==> FromEnd(n, s.stop.value) < p) && (begin - p) % -s.step == 0
  }

  lemma StepBack(x: nat, step: nat)
    requires step > 0
    ensures x >= step ==> (x - step) % step == x % step
    ensures 0 < x < step ==> x % step != 0
  {
    if x >= step {
      var q, r := (x - step) / step, (x - step) % step;
      assert (q + 1) * step + r == x;
      Arithmetic.EuclideanUnique(q + 1, r, step);
    }
  }

  lemma {:induction false} VisitsUp(at: int, limit: int, step: int, p: int)
    requires step > 0
    ensures p in Visit(at, limit, step) <==> at <= p < limit && (p - at) % step == 0
    decreases limit - at
  {
    if at < limit {
      VisitsUp(at + step, limit, step, p);
      if at <= p {
        StepBack(p - at, step);
        assert p - at - step == p - (at + step);
      }
    }
  }

  lemma {:induction false} VisitsDown(at: int, limit: int, step: int, p: int)
    requires step < 0
    ensures p in Visit(at, limit, step) <==> limit < p <= at && (at - p) % -step == 0
    decreases at - limit
  {
    if at > limit {
      VisitsDown(at + step, limit, step, p);
      if p <= at {
        StepBack(at - p, -step);
        assert at - p - -step == at + step - p;
      }
    }
  }

  /** A slice picks exactly the positions between its bounds that its steps reach. */
  lemma PickedExactly(n: nat, s: Slice, p: int)
    requires s.step != 0
    ensures p in Picked(n, s) <==> 0 <= p < n && InSlice(n, s, p)
  {
    hide Visit;
    if s.step > 0 {
      VisitsUp(First(n, s), Limit(n, s), s.step, p);
    } else {
      VisitsDown(First(n, s), Limit(n, s), s.step, p);
    }
  }

  /** `data[lo:hi]` for a list. */
  function Cut<T>(data: seq<T>, lo: nat, hi: nat): seq<T> {
    if lo <= hi <= |data| then data[lo..hi] else if lo < |data| < hi then data[lo..] else []
  }

  /** The flat container of the picked positions, re-based to the first of them. */
  function Sliced(f: Flat, picked: seq<int>): Flat
    requires |f.starts| == |f.ends| && picked != []
    requires Within(picked, 0, |f.starts|)
    requires 0 <= f.starts[picked[0]] && 0 <= f.ends[picked[|picked| - 1]]
  {
    var lo, hi := f.starts[picked[0]], f.ends[picked[|picked| - 1]];
    Flat(seq(|picked|, i requires 0 <= i < |picked| => f.starts[picked[i]] - lo),
         seq(|picked|, i requires 0 <= i < |picked| => f.ends[picked[i]] - lo),
         Cut(f.tokens, lo, hi), Cut(f.logprobs, lo, hi), Cut(f.ranks, lo, hi), Cut(f.decoded, lo, hi))
  }

  ghost function PickedContents(f: Flat, picked: seq<int>): seq<Position>
    requires Valid(f) && Within(picked, 0, |f.starts|)
  {
    seq(|picked|, i requires 0 <= i < |picked| => Contents(f)[picked[i]])
  }

  lemma ClimbingRanges(f: Flat, picked: seq<int>, i: nat)
    requires Valid(f) && picked != [] && Climbing(picked) && i < |picked|
    requires Within(picked, 0, |f.starts|)
    ensures f.starts[picked[0]] <= f.starts[picked[i]] <= f.ends[picked[i]] <= f.ends[picked[|picked| - 1]] <= |f.tokens|
  {
  }

  lemma CutEntries(f: Flat, lo: nat, hi: nat, a: nat, b: nat, g: Flat)
    requires Valid(f) && lo <= a <= b <= hi <= |f.tokens|
    requires g.tokens == f.tokens[lo..hi] && g.logprobs == f.logprobs[lo..hi] && g.ranks == f.ranks[lo..hi]
             && g.decoded == f.decoded[lo..hi]
    ensures EntriesIn(g, a - lo, b - lo) == EntriesIn(f, a, b)
  {
    var x, y := EntriesIn(g, a - lo, b - lo), EntriesIn(f, a, b);
    forall k | 0 <= k < b - a
      ensures x[k] == y[k]
    {
      assert x[k] == EntryAt(g, a - lo + k) && y[k] == EntryAt(f, a + k);
      assert f.tokens[lo..hi][a - lo + k] == f.tokens[a + k];
      assert f.logprobs[lo..hi][a - lo + k] == f.logprobs[a + k];
      assert f.ranks[lo..hi][a - lo + k] == f.ranks[a + k];
      assert f.decoded[lo..hi][a - lo + k] == f.decoded[a + k];
    }
  }

  /** A slice with a positive step is the slice of the list. */
  lemma ClimbingSliceRefines(f: Flat, picked: seq<int>)
    requires Valid(f) && picked != [] && Climbing(picked)
    requires Within(picked, 0, |f.starts|)
    ensures Valid(Sliced(f, picked)) && Contents(Sliced(f, picked)) == PickedContents(f, picked)
  {
    var g := Sliced(f, picked);
    var lo, hi := f.starts[picked[0]], f.ends[picked[|picked| - 1]];
    ClimbingRanges(f, picked, 0);
    assert g.tokens == f.tokens[lo..hi];
    forall i | 0 <= i < |picked|
      ensures 0 <= g.starts[i] <= g.ends[i] <= |g.tokens|
      ensures DictOf(EntriesIn(g, g.starts[i], g.ends[i])) == Contents(f)[picked[i]]
    {
      hide DictOf, EntriesIn;
      ClimbingRanges(f, picked, i);
      CutEntries(f, lo, hi, f.starts[picked[i]], f.ends[picked[i]], g);
    }
  }

  /** What position `k` of a slice reads as. */
  function ReadAt(f: Flat, k: nat): Read
    requires |f.tokens| == |f.logprobs| == |f.ranks| == |f.decoded| && k < |f.starts| == |f.ends|
  {
    ReadRange(f, f.starts[k], f.ends[k])
  }

  lemma ValidReads(f: Flat, k: nat)
    requires Valid(f) && k < |f.starts|
    ensures ReadAt(f, k) == Found(Contents(f)[k])
  {
    ReadRangeInside(f, f.starts[k], f.ends[k]);
  }

  /** The slice behaves like the slice of the list: every position reads as the picked dictionary. */
  ghost predicate SliceActsAsList(f: Flat, picked: seq<int>)
    requires Valid(f) && picked != [] && Within(picked, 0, |f.starts|)
  {
    forall k :: 0 <= k < |picked| ==> ReadAt(Sliced(f, picked), k) == Found(Contents(f)[picked[k]])
  }

  lemma {:induction false} DictEmpty(entries: Entries)
    ensures DictOf(entries) == map[] <==> entries == []
  {
    if entries != [] {
      var k := |entries| - 1;
      assert entries[k].0 in DictOf(entries);
    }
  }

  /** Positions picked backwards come from an empty cut of the data. */
  lemma FallingCutsNothing(f: Flat, picked: seq<int>)
    requires Valid(f) && |picked| > 1 && Falling(picked) && Within(picked, 0, |f.starts|)
    ensures var g := Sliced(f, picked); |g.tokens| == |g.logprobs| == |g.ranks| == |g.decoded| == 0
  {
    assert picked[|picked| - 1] < picked[0];
  }

  /**
    A slice with a negative step acts as the slice of the list exactly when it picks a single
    position or only empty dictionaries.
   */
  lemma FallingSliceActsAsList(f: Flat, picked: seq<int>)
    requires Valid(f) && picked != [] && Falling(picked) && Within(picked, 0, |f.starts|)
    ensures SliceActsAsList(f, picked)
            <==> |picked| == 1 || forall k :: 0 <= k < |picked| ==> Contents(f)[picked[k]] == map[]
  {
    var g := Sliced(f, picked);
    if |picked| == 1 {
      assert Climbing(picked);
      ClimbingSliceActsAsList(f, picked);
    } else {
      FallingCutsNothing(f, picked);
      forall k | 0 <= k < |picked|
        ensures ReadAt(g, k) == Found(Contents(f)[picked[k]]) <==> Contents(f)[picked[k]] == map[]
      {
        var p := picked[k];
        ReadRangeNoData(g, g.starts[k], g.ends[k]);
        DictEmpty(EntriesIn(f, f.starts[p], f.ends[p]));
      }
    }
  }

  lemma ClimbingSliceActsAsList(f: Flat, picked: seq<int>)
    requires Valid(f) && picked != [] && Climbing(picked) && Within(picked, 0, |f.starts|)
    ensures SliceActsAsList(f, picked)
  {
    ClimbingSliceRefines(f, picked);
    hide Contents, Sliced, Valid;
    forall k | 0 <= k < |picked|
      ensures ReadAt(Sliced(f, picked), k) == Found(Contents(f)[picked[k]])
    {
      ValidReads(Sliced(f, picked), k);
    }
  }

  /** Which slices act as slices of the list, for every slice that picks something. */
  lemma SlicesActAsList(f: Flat, s: Slice)
    requires Valid(f) && s.step != 0 && Picked(|f.starts|, s) != []
    ensures Within(Picked(|f.starts|, s), 0, |f.starts|)
    ensures forall p :: p in Picked(|f.starts|, s) <==> 0 <= p < |f.starts| && InSlice(|f.starts|, s, p)
    ensures var picked := Picked(|f.starts|, s);
            SliceActsAsList(f, picked)
            <==> s.step > 0 || |picked| == 1 || forall k :: 0 <= k < |picked| ==> Contents(f)[picked[k]] == map[]
  {
    PickedShape(|f.starts|, s);
    hide Valid, Contents, SliceActsAsList, Picked, InSlice;
    forall p
      ensures p in Picked(|f.starts|, s) <==> 0 <= p < |f.starts| && InSlice(|f.starts|, s, p)
    {
      PickedExactly(|f.starts|, s, p);
    }
    var picked := Picked(|f.starts|, s);
    if s.step > 0 {
      ClimbingSliceActsAsList(f, picked);
    } else {
      FallingSliceActsAsList(f, picked);
    }
  }

  // ----- Appending the next position, in both containers

  /** Python's `zip` of the four columns. */
  function Zipped(tokens: seq<nat>, logprobs: seq<real>, ranks: seq<int>, decoded: seq<Option<string>>): Entries {
    var n := Shortest(Shortest(|tokens|, |logprobs|), Shortest(|ranks|, |decoded|));
    seq(n, k requires 0 <= k < n => (tokens[k], Logprob(logprobs[k], Some(ranks[k]), decoded[k])))
  }

  function Shortest(a: nat, b: nat): (r: nat)
    ensures r <= a && r <= b && (r == a || r == b)
  {
    if a < b then a else b
  }

  /** The sampled token's rank followed by the ranks 1, 2, … of the top entries. */
  function RankColumn(rank: int, numLogprobs: int, available: nat): seq<int> {
    var n := if numLogprobs == -1 then available else numLogprobs;
    [rank] + seq(if n < 0 then 0 else n, k => k + 1)
  }

  lemma DictNext(entries: Entries, k: nat)
    requires k < |entries|
    ensures DictOf(entries[..k + 1]) == DictOf(entries[..k])[entries[k].0 := entries[k].1]
  {
    assert entries[..k + 1][..k] == entries[..k];
  }

  /** A dictionary holds the keys of its entries. */
  lemma {:induction false} DictKeys(entries: Entries, upTo: nat, t: nat)
    requires upTo <= |entries|
    ensures t in DictOf(entries[..upTo]) <==> exists k :: 0 <= k < upTo && entries[k].0 == t
  {
    hide DictOf;
    if upTo == 0 {
      DictEmpty(entries[..0]);
    } else {
      DictKeys(entries, upTo - 1, t);
      DictNext(entries, upTo - 1);
    }
  }

  /** Each key has the value it was given last. */
  lemma {:induction false} DictLast(entries: Entries, upTo: nat, k: nat)
    requires k < upTo <= |entries| && forall j :: k < j < upTo ==> entries[j].0 != entries[k].0
    ensures entries[k].0 in DictOf(entries[..upTo]) && DictOf(entries[..upTo])[entries[k].0] == entries[k].1
  {
    hide DictOf;
    DictNext(entries, upTo - 1);
    if k < upTo - 1 {
      DictLast(entries, upTo - 1, k);
    }
  }
}
