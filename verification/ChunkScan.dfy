/** Counting byte strings in a trace file that is read in chunks, with a carry across chunk borders. */
module ChunkScan {
  import opened Options

  type Bytes = seq<bv8>

  ghost predicate Occurs(v: Bytes, data: Bytes) {
    exists i :: 0 <= i <= |data| - |v| && data[i..][..|v|] == v
  }

  /** Non-overlapping occurrences, found from left to right; the empty string occurs at every border. */
  function Count(data: Bytes, v: Bytes): nat
    decreases |data|
  {
    if v == [] then |data| + 1
    else if |data| < |v| then 0
    else if v <= data then 1 + Count(data[|v|..], v)
    else Count(data[1..], v)
  }

  lemma OccursAt(v: Bytes, data: Bytes, i: nat)
    requires i <= |data| && v <= data[i..]
    ensures Occurs(v, data)
  {
    assert data[i..][..|v|] == v;
  }

  lemma OccursIn(v: Bytes, data: Bytes, a: Bytes, b: Bytes)
    requires Occurs(v, data)
    ensures Occurs(v, a + data + b)
  {
    var i :| 0 <= i <= |data| - |v| && data[i..][..|v|] == v;
    assert (a + data + b)[|a| + i..][..|v|] == v;
  }

  lemma {:induction false} CountedIffOccurs(data: Bytes, v: Bytes)
    ensures Count(data, v) > 0 <==> Occurs(v, data)
    decreases |data|
  {
    if v == [] {
      OccursAt(v, data, 0);
    } else if |data| >= |v| {
      if v <= data {
        OccursAt(v, data, 0);
      } else {
        CountedIffOccurs(data[1..], v);
        if Occurs(v, data[1..]) {
          OccursIn(v, data[1..], data[..1], []);
          assert data[..1] + data[1..] + [] == data;
        }
        if Occurs(v, data) {
          var i :| 0 <= i <= |data| - |v| && data[i..][..|v|] == v;
          assert data[..|v|] == v <==> v <= data;
          assert data[1..][i - 1..] == data[i..];
          OccursAt(v, data[1..], i - 1);
        }
      }
    }
  }

  // ----- Left-to-right counting is the best there is

  /** The needle sits at each of the places, and no two of its occurrences overlap. */
  ghost predicate Apart(data: Bytes, v: Bytes, places: seq<nat>) {
    && (forall i :: 0 <= i < |places| ==> places[i] <= |data| && v <= data[places[i]..])
    && (forall i, j :: 0 <= i < j < |places| ==> places[i] < places[j] && places[i] + |v| <= places[j])
  }

  ghost function Shifted(places: seq<nat>, step: nat): seq<nat> {
    seq(|places|, i requires 0 <= i < |places| => places[i] + step)
  }

  lemma ShiftedApart(data: Bytes, v: Bytes, places: seq<nat>, step: nat)
    requires step <= |data| && Apart(data[step..], v, places)
    ensures Apart(data, v, Shifted(places, step))
  {
    forall i | 0 <= i < |places|
      ensures v <= data[places[i] + step..]
    {
      assert data[step..][places[i]..] == data[places[i] + step..];
    }
  }

  lemma FirstPlace(data: Bytes, v: Bytes, places: seq<nat>)
    requires v != [] && v <= data && Apart(data, v, places) && forall i :: 0 <= i < |places| ==> |v| <= places[i]
    ensures Apart(data, v, [0] + places)
  {
    assert data[0..] == data;
  }

  lemma NoPlaces(data: Bytes, v: Bytes)
    ensures Apart(data, v, [])
  {
  }

  lemma EveryBorder(data: Bytes)
    ensures Apart(data, [], seq(|data| + 1, i => i))
  {
  }

  /** There are as many occurrences apart from each other as the count says. */
  lemma {:induction false} CountIsReached(data: Bytes, v: Bytes) returns (places: seq<nat>)
    ensures |places| == Count(data, v) && Apart(data, v, places)
    decreases |data|
  {
    hide Apart;
    if v == [] {
      EveryBorder(data);
      places := seq(|data| + 1, i => i);
    } else if |data| < |v| {
      places := [];
      NoPlaces(data, v);
    } else if v <= data {
      var rest := CountIsReached(data[|v|..], v);
      ShiftedApart(data, v, rest, |v|);
      FirstPlace(data, v, Shifted(rest, |v|));
      places := [0] + Shifted(rest, |v|);
    } else {
      var rest := CountIsReached(data[1..], v);
      ShiftedApart(data, v, rest, 1);
      places := Shifted(rest, 1);
    }
  }

  ghost function Unshifted(places: seq<nat>, step: nat): seq<nat>
    requires forall i :: 0 <= i < |places| ==> step <= places[i]
  {
    seq(|places|, i requires 0 <= i < |places| => places[i] - step)
  }

  lemma UnshiftedApart(data: Bytes, v: Bytes, places: seq<nat>, step: nat)
    requires step <= |data| && Apart(data, v, places) && forall i :: 0 <= i < |places| ==> step <= places[i]
    ensures Apart(data[step..], v, Unshifted(places, step))
  {
    forall i | 0 <= i < |places|
      ensures v <= data[step..][places[i] - step..]
    {
      assert data[step..][places[i] - step..] == data[places[i]..];
    }
  }

  lemma {:induction false} ClimbingPlaces(places: seq<nat>, i: nat)
    requires i < |places| && forall i, j :: 0 <= i < j < |places| ==> places[i] < places[j]
    ensures i <= places[i]
  {
    if i > 0 {
      ClimbingPlaces(places, i - 1);
    }
  }

  lemma RestApart(data: Bytes, v: Bytes, places: seq<nat>)
    requires places != [] && Apart(data, v, places)
    ensures Apart(data, v, places[1..]) && forall i :: 0 <= i < |places[1..]| ==> |v| <= places[1..][i]
  {
    forall i | 0 <= i < |places[1..]|
      ensures places[1..][i] == places[i + 1] && places[0] + |v| <= places[i + 1]
    {
    }
  }

  /** And never more. */
  lemma {:induction false} CountIsMost(data: Bytes, v: Bytes, places: seq<nat>)
    requires Apart(data, v, places)
    ensures |places| <= Count(data, v)
    decreases |data|
  {
    if places != [] {
      if v == [] {
        ClimbingPlaces(places, |places| - 1);
      } else if v <= data {
        var rest := places[1..];
        RestApart(data, v, places);
        UnshiftedApart(data, v, rest, |v|);
        CountIsMost(data[|v|..], v, Unshifted(rest, |v|));
      } else {
        assert data[0..] == data;
        assert 1 <= places[0];
        UnshiftedApart(data, v, places, 1);
        CountIsMost(data[1..], v, Unshifted(places, 1));
      }
    }
  }

  lemma CountStep(data: Bytes, v: Bytes)
    requires v != []
    ensures |data| < |v| ==> Count(data, v) == 0
    ensures |data| >= |v| ==> Count(data, v) == if v <= data then 1 + Count(data[|v|..], v) else Count(data[1..], v)
  {
  }

  lemma DropTwice(data: Bytes, a: nat, b: nat)
    requires a <= b <= |data|
    ensures data[a..][b - a..] == data[b..]
  {
  }

  /** Dropping a front never raises the count, and dropping no more than one occurrence costs at most one. */
  lemma {:induction false} CountDropped(data: Bytes, v: Bytes, k: nat)
    requires v != [] && k <= |data|
    ensures Count(data[k..], v) <= Count(data, v)
    ensures k <= |v| ==> Count(data, v) <= 1 + Count(data[k..], v)
    decreases |data|
  {
    hide Count;
    if |data| < |v| || k == 0 {
      CountStep(data, v);
      CountStep(data[k..], v);
      DropTwice(data, 0, k);
    } else if v <= data {
      var rest := data[|v|..];
      CountStep(data, v);
      if k <= |v| {
        DropTwice(data, k, |v|);
        CountDropped(data[k..], v, |v| - k);
      } else {
        DropTwice(data, |v|, k);
        CountDropped(rest, v, k - |v|);
      }
    } else {
      CountStep(data, v);
      DropTwice(data, 1, k);
      CountDropped(data[1..], v, k - 1);
    }
  }

  ghost predicate Suffix(s: Bytes, x: Bytes) {
    |s| <= |x| && x[|x| - |s|..] == s
  }

  /** Counting before a border and again from a carry that could hold all but one byte of an occurrence misses nothing. */
  lemma {:induction false} CarryMissesNothing(x: Bytes, s: Bytes, y: Bytes, v: Bytes)
    requires Suffix(s, x) && (s == x || |s| >= |v| - 1)
    ensures Count(x + y, v) <= Count(x, v) + Count(s + y, v)
    decreases |x|
  {
    if v != [] && s != x {
      var step := if v <= x then |v| else 1;
      assert v <= x <==> v <= x + y;
      var x' := x[step..];
      assert (x + y)[step..] == x' + y;
      if |x'| < |s| {
        assert (s + y)[|s| - |x'|..] == x' + y;
        CountDropped(s + y, v, |s| - |x'|);
        CarryMissesNothing(x', x', y, v);
      } else {
        CarryMissesNothing(x', s, y, v);
      }
    }
  }

  // ----- The scan

  function Flat(chunks: seq<Bytes>): Bytes {
    if chunks == [] then [] else Flat(chunks[..|chunks| - 1]) + chunks[|chunks| - 1]
  }

  ghost predicate FoundSoFar(counts: seq<nat>, needles: seq<Bytes>, done: Bytes) {
    && |counts| == |needles|
    && (forall k :: 0 <= k < |needles| ==>
         && (needles[k] != [] || done != [] ==> counts[k] >= Count(done, needles[k]))
         && (counts[k] > 0 ==> Occurs(needles[k], done)))
    && (done == [] ==> forall k :: 0 <= k < |needles| ==> counts[k] == 0)
  }

  ghost predicate Longest(needles: seq<Bytes>, longest: nat) {
    && (forall k :: 0 <= k < |needles| ==> |needles[k]| <= longest)
    && (exists k :: 0 <= k < |needles| && |needles[k]| == longest)
  }

  method LongestNeedle(needles: seq<Bytes>) returns (longest: nat)
    requires needles != []
    ensures Longest(needles, longest)
  {
    longest := |needles[0]|;
    for k := 1 to |needles|
      invariant forall j :: 0 <= j < k ==> |needles[j]| <= longest
      invariant exists j :: 0 <= j < k && |needles[j]| == longest
    {
      if |needles[k]| > longest {
        longest := |needles[k]|;
      }
    }
  }

  /** The bytes kept for the next chunk: the last `overlap`, none for zero, all but the first for minus one. */
  function Carry(data: Bytes, overlap: int): (carry: Bytes)
    requires overlap >= -1
    ensures Suffix(carry, data)
    ensures carry == data || |carry| >= overlap
  {
    if overlap == 0 then []
    else if overlap < 0 then (if data == [] then [] else data[1..])
    else if |data| <= overlap then data
    else data[|data| - overlap..]
  }

  /** The carry is a tail of everything read, long enough for every needle. */
  ghost predicate Carried(carry: Bytes, needles: seq<Bytes>, done: Bytes) {
    && Suffix(carry, done)
    && (forall k :: 0 <= k < |needles| ==> carry == done || |carry| >= |needles[k]| - 1)
  }

  lemma CarriedOn(carry: Bytes, chunk: Bytes, needles: seq<Bytes>, done: Bytes, longest: nat)
    requires Carried(carry, needles, done) && Longest(needles, longest)
    ensures Carried(Carry(carry + chunk, longest - 1), needles, done + chunk)
  {
    hide Carry;
    var next := Carry(carry + chunk, longest - 1);
    TailOfTail(carry, chunk, done, next);
    forall k | 0 <= k < |needles|
      ensures next == done + chunk || |next| >= |needles[k]| - 1
    {
    }
  }

  lemma TailOfTail(carry: Bytes, chunk: Bytes, done: Bytes, next: Bytes)
    requires Suffix(carry, done) && Suffix(next, carry + chunk)
    ensures Suffix(next, done + chunk)
  {
    var front := done[..|done| - |carry|];
    assert done == front + carry;
    assert done + chunk == front + (carry + chunk);
    assert (front + (carry + chunk))[|front| + |carry + chunk| - |next|..] == (carry + chunk)[|carry + chunk| - |next|..];
  }

  lemma OccursStays(carry: Bytes, chunk: Bytes, done: Bytes, v: Bytes)
    requires Suffix(carry, done)
    ensures Occurs(v, done) ==> Occurs(v, done + chunk)
    ensures Occurs(v, carry + chunk) ==> Occurs(v, done + chunk)
    ensures done == [] ==> carry + chunk == done + chunk
  {
    hide Occurs;
    if Occurs(v, done) {
      OccursIn(v, done, [], chunk);
      assert [] + done == done;
    }
    if Occurs(v, carry + chunk) {
      var front := done[..|done| - |carry|];
      OccursIn(v, carry + chunk, front, []);
      assert front + carry == done;
      assert front + (carry + chunk) == done + chunk;
      assert front + (carry + chunk) + [] == done + chunk;
    }
  }

  lemma FoundWithChunk(before: nat, carry: Bytes, chunk: Bytes, done: Bytes, v: Bytes)
    requires Suffix(carry, done) && (carry == done || |carry| >= |v| - 1)
    requires before > 0 ==> Occurs(v, done)
    requires v != [] || done != [] ==> before >= Count(done, v)
    ensures before + Count(carry + chunk, v) >= Count(done + chunk, v)
    ensures before + Count(carry + chunk, v) > 0 ==> Occurs(v, done + chunk)
  {
    hide Occurs, Count, Suffix;
    CountedIffOccurs(carry + chunk, v);
    OccursStays(carry, chunk, done, v);
    if v != [] || done != [] {
      CarryMissesNothing(done, carry, chunk, v);
    }
  }

  lemma NothingFound(counts: seq<nat>, needles: seq<Bytes>, chunks: seq<Bytes>)
    requires |counts| == |needles| && forall k :: 0 <= k < |needles| ==> counts[k] == 0
    ensures FoundSoFar(counts, needles, Flat(chunks[..0])) && Carried([], needles, Flat(chunks[..0]))
  {
  }

  /** The count of a needle misses nothing and is positive exactly when the needle occurs, but for the empty file. */
  ghost predicate FoundIn(count: nat, v: Bytes, file: Bytes) {
    && (count > 0 <==> Occurs(v, file) && (v != [] || file != []))
    && (v != [] || file != [] ==> count >= Count(file, v))
  }

  lemma FoundInFile(counts: seq<nat>, needles: seq<Bytes>, file: Bytes)
    requires FoundSoFar(counts, needles, file)
    ensures |counts| == |needles|
    ensures forall k :: 0 <= k < |needles| ==> FoundIn(counts[k], needles[k], file)
  {
    hide Occurs, Count;
    forall k | 0 <= k < |needles|
      ensures FoundIn(counts[k], needles[k], file)
    {
      CountedIffOccurs(file, needles[k]);
    }
  }

  // ----- What each chunk adds

  /**
    The bytes before a chunk that are looked at again: the last `longest - 1` of what was read.  When
    every needle is empty only one byte is dropped for each of the `c` chunks read.
   */
  ghost function Kept(done: Bytes, c: nat, longest: nat): Bytes {
    if longest == 0 then (if c <= |done| then done[c..] else [])
    else if |done| < longest then done
    else done[|done| - (longest - 1)..]
  }

  /** A needle's count over the first `upTo` chunks, each counted behind the kept bytes before it. */
  ghost function ChunkCounts(chunks: seq<Bytes>, v: Bytes, longest: nat, upTo: nat): nat
    requires upTo <= |chunks|
  {
    if upTo == 0 then 0
    else ChunkCounts(chunks, v, longest, upTo - 1)
         + Count(Kept(Flat(chunks[..upTo - 1]), upTo - 1, longest) + chunks[upTo - 1], v)
  }

  lemma TailOfConcat(front: Bytes, x: Bytes, k: nat)
    requires k <= |x|
    ensures (front + x)[|front + x| - k..] == x[|x| - k..]
  {
  }

  lemma KeptOn(done: Bytes, chunk: Bytes, c: nat, longest: nat)
    requires chunk != [] && c <= |done|
    ensures Carry(Kept(done, c, longest) + chunk, longest - 1) == Kept(done + chunk, c + 1, longest)
  {
    if longest == 0 {
      assert (done + chunk)[c..] == done[c..] + chunk;
    } else if |done| >= longest {
      KeptTail(done, chunk, c, longest);
    }
  }

  lemma KeptTail(done: Bytes, chunk: Bytes, c: nat, longest: nat)
    requires chunk != [] && 0 < longest <= |done|
    ensures Carry(Kept(done, c, longest) + chunk, longest - 1) == Kept(done + chunk, c + 1, longest)
  {
    hide Kept, Carry;
    var k := longest - 1;
    var front, kept := done[..|done| - k], done[|done| - k..];
    KeptLast(done, c, longest);
    KeptLast(done + chunk, c + 1, longest);
    CarryLast(kept + chunk, k);
    TailOfConcat(front, kept + chunk, k);
    Regrouped(done, chunk, |done| - k);
  }

  lemma Regrouped(done: Bytes, chunk: Bytes, i: nat)
    requires i <= |done|
    ensures done[..i] + (done[i..] + chunk) == done + chunk
  {
  }

  lemma KeptLast(done: Bytes, c: nat, longest: nat)
    requires 0 < longest <= |done|
    ensures Kept(done, c, longest) == done[|done| - (longest - 1)..]
  {
  }

  lemma CarryLast(data: Bytes, k: nat)
    requires k < |data|
    ensures Carry(data, k) == data[|data| - k..]
  {
  }

  lemma {:induction false} ChunksFill(chunks: seq<Bytes>, c: nat)
    requires c <= |chunks| && forall i :: 0 <= i < |chunks| ==> chunks[i] != []
    ensures c <= |Flat(chunks[..c])|
  {
    if c > 0 {
      ChunksFill(chunks, c - 1);
      FlatStep(chunks, c - 1);
    }
  }

  lemma NothingCounted(chunks: seq<Bytes>, needles: seq<Bytes>, longest: nat)
    ensures forall k :: 0 <= k < |needles| ==> ChunkCounts(chunks, needles[k], longest, 0) == 0
    ensures Kept(Flat(chunks[..0]), 0, longest) == []
  {
  }

  lemma CountedChunk(chunks: seq<Bytes>, v: Bytes, longest: nat, c: nat)
    requires c < |chunks|
    ensures ChunkCounts(chunks, v, longest, c + 1)
            == ChunkCounts(chunks, v, longest, c) + Count(Kept(Flat(chunks[..c]), c, longest) + chunks[c], v)
  {
  }

  /**
    Scans a file given as its chunks. Without needles the largest length does not exist and the scan
    fails. Otherwise no chunking makes the scan miss an occurrence: every count is at least the count
    over the whole file, and it is positive exactly when the needle occurs, except that an empty
    needle is not found in an empty file.
   */
  method ScanBinary(chunks: seq<Bytes>, needles: seq<Bytes>) returns (result: Option<seq<nat>>)
    requires forall c :: 0 <= c < |chunks| ==> chunks[c] != []
    ensures result == None <==> needles == []
    ensures result.Some? ==> |result.value| == |needles|
    ensures forall k :: result.Some? && 0 <= k < |needles| ==> FoundIn(result.value[k], needles[k], Flat(chunks))
    ensures result.Some? ==>
              exists longest :: Longest(needles, longest)
                                && forall k :: 0 <= k < |needles| ==>
                                     result.value[k] == ChunkCounts(chunks, needles[k], longest, |chunks|)
  {
    hide *;
    if needles == [] {
      return None;
    }
    var longest := LongestNeedle(needles);
    var counts: seq<nat> := seq(|needles|, k => 0);
    var carry: Bytes := [];
    NothingFound(counts, needles, chunks);
    NothingCounted(chunks, needles, longest);
    for c := 0 to |chunks|
      invariant FoundSoFar(counts, needles, Flat(chunks[..c]))
      invariant Carried(carry, needles, Flat(chunks[..c]))
      invariant carry == Kept(Flat(chunks[..c]), c, longest) && |counts| == |needles|
      invariant forall k :: 0 <= k < |needles| ==> counts[k] == ChunkCounts(chunks, needles[k], longest, c)
    {
      ghost var done := Flat(chunks[..c]);
      FlatStep(chunks, c);
      var data := carry + chunks[c];
      counts := CountAll(counts, needles, carry, chunks[c], done);
      CarriedOn(carry, chunks[c], needles, done, longest);
      forall k | 0 <= k < |needles|
        ensures ChunkCounts(chunks, needles[k], longest, c + 1)
                == ChunkCounts(chunks, needles[k], longest, c) + Count(carry + chunks[c], needles[k])
      {
        CountedChunk(chunks, needles[k], longest, c);
      }
      ChunksFill(chunks, c);
      KeptOn(done, chunks[c], c, longest);
      carry := Carry(data, longest as int - 1);
    }
    assert chunks[..|chunks|] == chunks;
    FoundInFile(counts, needles, Flat(chunks));
    result := Some(counts);
  }

  lemma FlatStep(chunks: seq<Bytes>, c: nat)
    requires c < |chunks|
    ensures Flat(chunks[..c + 1]) == Flat(chunks[..c]) + chunks[c]
  {
    assert chunks[..c + 1][..c] == chunks[..c];
  }

  /** Counts every needle in the carry followed by the next chunk. */
  method CountAll(before: seq<nat>, needles: seq<Bytes>, carry: Bytes, chunk: Bytes, ghost done: Bytes)
    returns (counts: seq<nat>)
    requires FoundSoFar(before, needles, done) && Carried(carry, needles, done) && chunk != []
    ensures FoundSoFar(counts, needles, done + chunk) && |counts| == |before| == |needles|
    ensures forall k :: 0 <= k < |needles| ==> counts[k] == before[k] + Count(carry + chunk, needles[k])
  {
    hide Occurs, Count, Suffix;
    counts := before;
    for k := 0 to |needles|
      invariant |counts| == |needles|
      invariant forall j :: k <= j < |needles| ==> counts[j] == before[j]
      invariant forall j :: 0 <= j < k ==> counts[j] == before[j] + Count(carry + chunk, needles[j])
      invariant forall j :: 0 <= j < k ==>
                  counts[j] >= Count(done + chunk, needles[j]) && (counts[j] > 0 ==> Occurs(needles[j], done + chunk))
    {
      FoundWithChunk(before[k], carry, chunk, done, needles[k]);
      counts := counts[k := counts[k] + Count(carry + chunk, needles[k])];
    }
  }
}
