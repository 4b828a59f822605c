/** Mean, 10th and 90th percentile, minimum and maximum of a list of samples. */
module SummaryStats {
  import opened SortedReals

  // ----- The summary

  function Sum(s: seq<real>): real {
    if s == [] then 0.0 else s[0] + Sum(s[1..])
  }

  function Ceil(x: real): int { -((-x).Floor) }

  function Mix(a: real, b: real, weight: real): real {
    a * (1.0 - weight) + b * weight
  }

  /** The samples read at a fractional position, by linear interpolation. */
  function At(ordered: seq<real>, position: real): real
    requires ordered != [] && 0.0 <= position <= (|ordered| - 1) as real
  {
    var lower, upper := position.Floor, Ceil(position);
    if lower == upper then ordered[lower] else Mix(ordered[lower], ordered[upper], position - lower as real)
  }

  function PercentilePosition(n: nat, percent: real): (x: real)
    requires n > 0 && 0.0 <= percent <= 1.0
    ensures 0.0 <= x <= (n - 1) as real
  {
    Scaled((n - 1) as real, percent);
    (n - 1) as real * percent
  }

  function Percentile(ordered: seq<real>, percent: real): real
    requires ordered != [] && 0.0 <= percent <= 1.0
  {
    At(ordered, PercentilePosition(|ordered|, percent))
  }

  lemma Scaled(n: real, p: real)
    requires 0.0 <= n && 0.0 <= p <= 1.0
    ensures 0.0 <= n * p <= n
  {
  }

  datatype Summary = NoSamples | Summary(mean: real, p10: real, p90: real, min: real, max: real, count: nat)

  function Summarize(values: seq<real>): Summary {
    var ordered := SortReals(values);
    if ordered == [] then NoSamples
    else Summary(Sum(ordered) / |ordered| as real, Percentile(ordered, 0.1), Percentile(ordered, 0.9),
                 ordered[0], ordered[|ordered| - 1], |ordered|)
  }

  /** The summary of a list does not depend on the order of its samples. */
  lemma OrderIsInvisible(a: seq<real>, b: seq<real>)
    requires Rearranged(a, b)
    ensures Summarize(a) == Summarize(b)
  {
    SortRealsSorts(a);
    SortRealsSorts(b);
    SortedUnique(SortReals(a), SortReals(b));
  }

  // ----- Bounds

  lemma MixBetween(a: real, b: real, w: real)
    requires a <= b && 0.0 <= w <= 1.0
    ensures a <= Mix(a, b, w) <= b
  {
    assert Mix(a, b, w) == a + (b - a) * w;
    Scaled(b - a, w);
  }

  lemma MixMonotone(a: real, b: real, v: real, w: real)
    requires a <= b && v <= w
    ensures Mix(a, b, v) <= Mix(a, b, w)
  {
    assert Mix(a, b, w) - Mix(a, b, v) == (b - a) * (w - v);
    NotNegative(b - a, w - v);
  }

  /** A reading lies between the samples around it. */
  lemma AtBetween(ordered: seq<real>, x: real)
    requires ordered != [] && Sorted(ordered) && 0.0 <= x <= (|ordered| - 1) as real
    ensures 0 <= x.Floor <= Ceil(x) < |ordered| && Ceil(x) <= x.Floor + 1
    ensures ordered[x.Floor] <= At(ordered, x) <= ordered[Ceil(x)]
  {
    hide Mix;
    if x.Floor != Ceil(x) {
      MixBetween(ordered[x.Floor], ordered[Ceil(x)], x - x.Floor as real);
    }
  }

  /** Reading further along a sorted list gives no smaller value. */
  lemma AtMonotone(ordered: seq<real>, x: real, y: real)
    requires ordered != [] && Sorted(ordered) && 0.0 <= x <= y <= (|ordered| - 1) as real
    ensures At(ordered, x) <= At(ordered, y)
  {
    hide Mix;
    AtBetween(ordered, x);
    AtBetween(ordered, y);
    if x.Floor == y.Floor && x.Floor != Ceil(x) && y.Floor != Ceil(y) {
      MixMonotone(ordered[x.Floor], ordered[Ceil(x)], x - x.Floor as real, y - x.Floor as real);
    }
  }

  lemma PositionMonotone(n: nat, p: real, q: real)
    requires n > 0 && 0.0 <= p <= q <= 1.0
    ensures PercentilePosition(n, p) <= PercentilePosition(n, q)
  {
    NotNegative((n - 1) as real, q - p);
  }

  lemma NotNegative(x: real, y: real)
    requires 0.0 <= x && 0.0 <= y
    ensures 0.0 <= x * y
  {
  }

  /** The five figures are in order. */
  lemma SummaryOrdered(values: seq<real>)
    requires values != []
    ensures var s := Summarize(values);
            s.Summary? && s.min <= s.p10 <= s.p90 <= s.max && s.count == |values|
  {
    SortRealsSorts(values);
    var ordered := SortReals(values);
    hide At, PercentilePosition;
    AtBetween(ordered, PercentilePosition(|ordered|, 0.1));
    AtBetween(ordered, PercentilePosition(|ordered|, 0.9));
    PositionMonotone(|ordered|, 0.1, 0.9);
    AtMonotone(ordered, PercentilePosition(|ordered|, 0.1), PercentilePosition(|ordered|, 0.9));
  }

  // ----- Values

  lemma {:induction false} SumInsert(s: seq<real>, x: real)
    ensures Sum(Insert(s, x)) == Sum(s) + x
  {
    if s != [] && s[0] < x {
      SumInsert(s[1..], x);
      assert ([s[0]] + Insert(s[1..], x))[1..] == Insert(s[1..], x);
    } else {
      assert ([x] + s)[1..] == s;
    }
  }

  lemma {:induction false} SumSorted(s: seq<real>)
    ensures Sum(SortReals(s)) == Sum(s)
  {
    if s != [] {
      SumSorted(s[1..]);
      SumInsert(SortReals(s[1..]), s[0]);
    }
  }

  /** The samples around tenth `m` of the way from one sample to the next, weighted by how near they are. */
  ghost predicate IsTenth(ordered: seq<real>, m: nat, value: real)
    requires m <= 10 * (|ordered| - 1)
  {
    var lower, rest := m / 10, m % 10;
    10.0 * value == (10 - rest) as real * ordered[lower] + (if rest == 0 then 0.0 else rest as real * ordered[lower + 1])
  }

  lemma TenthFloor(m: nat)
    ensures var x := m as real / 10.0;
            && x.Floor == m / 10 && Ceil(x) == (m + 9) / 10 && (x - (m / 10) as real) * 10.0 == (m % 10) as real
  {
    var x := m as real / 10.0;
    assert m == m / 10 * 10 + m % 10;
    assert (m / 10) as real <= x < (m / 10) as real + 1.0;
  }

  lemma TenthMixed(a: real, b: real, w: real, rest: nat)
    requires rest <= 10 && w * 10.0 == rest as real
    ensures 10.0 * Mix(a, b, w) == (10 - rest) as real * a + rest as real * b
  {
    var r := rest as real;
    assert 10.0 * (a * (1.0 - w)) == a * (10.0 - w * 10.0);
    assert 10.0 * (b * w) == b * (w * 10.0);
  }

  lemma AtTenth(ordered: seq<real>, m: nat)
    requires ordered != [] && m <= 10 * (|ordered| - 1)
    ensures 0.0 <= m as real / 10.0 <= (|ordered| - 1) as real
    ensures IsTenth(ordered, m, At(ordered, m as real / 10.0))
  {
    hide Mix, Ceil;
    TenthFloor(m);
    if m % 10 != 0 {
      TenthMixed(ordered[m / 10], ordered[m / 10 + 1], m as real / 10.0 - (m / 10) as real, m % 10);
    }
  }

  lemma TenthBetween(ordered: seq<real>, m: nat, value: real)
    requires Sorted(ordered) && m <= 10 * (|ordered| - 1) && IsTenth(ordered, m, value)
    ensures ordered[m / 10] <= value <= ordered[(m + 9) / 10]
  {
    var lower, rest := m / 10, m % 10;
    if rest != 0 {
      var a, b := ordered[lower], ordered[lower + 1];
      assert (10 - rest) as real * a == 10.0 * a - rest as real * a;
      NotNegative(rest as real, b - a);
      NotNegative((10 - rest) as real, b - a);
    }
  }

  lemma TenthPositions(n: nat)
    requires n > 0
    ensures PercentilePosition(n, 0.1) == (n - 1) as real / 10.0
    ensures PercentilePosition(n, 0.9) == (9 * (n - 1)) as real / 10.0
  {
  }

  lemma MeanTimesCount(sum: real, n: real)
    requires n > 0.0
    ensures sum / n * n == sum
  {
  }

  lemma FiguresOn(values: seq<real>, ordered: seq<real>)
    requires values != [] && Sorted(ordered) && Rearranged(ordered, values)
    ensures var s, n := Summarize(values), |values|;
            && s.Summary? && s.count == n && s.mean * n as real == Sum(values)
            && s.min == ordered[0] && s.max == ordered[n - 1]
            && IsTenth(ordered, n - 1, s.p10) && IsTenth(ordered, 9 * (n - 1), s.p90)
  {
    hide At, SortReals, IsTenth, Sum, PercentilePosition, Count;
    var n := |values|;
    SortRealsSorts(values);
    SortedUnique(ordered, SortReals(values));
    SumSorted(values);
    MeanTimesCount(Sum(values), n as real);
    TenthPositions(n);
    AtTenth(ordered, n - 1);
    AtTenth(ordered, 9 * (n - 1));
  }

  /**
    What the figures are, on any sorted rearrangement of the samples: the mean times the count is
    the sum of the samples, the extremes are samples, and the percentiles sit one and nine tenths
    of the way from the first sample to the last.
   */
  lemma SummaryValues(values: seq<real>, ordered: seq<real>)
    requires values != [] && Sorted(ordered) && Rearranged(ordered, values)
    ensures var s, n := Summarize(values), |values|;
            && s.Summary? && s.count == n && s.mean * n as real == Sum(values)
            && s.min == ordered[0] && s.max == ordered[n - 1]
            && (exists i :: 0 <= i < n && values[i] == s.min) && (exists i :: 0 <= i < n && values[i] == s.max)
            && (forall i :: 0 <= i < n ==> s.min <= values[i] <= s.max)
            && IsTenth(ordered, n - 1, s.p10) && ordered[(n - 1) / 10] <= s.p10 <= ordered[(n + 8) / 10]
            && IsTenth(ordered, 9 * (n - 1), s.p90) && ordered[9 * (n - 1) / 10] <= s.p90 <= ordered[(9 * (n - 1) + 9) / 10]
  {
    hide Summarize, IsTenth, Sum, Count;
    var n := |values|;
    FiguresOn(values, ordered);
    TenthBetween(ordered, n - 1, Summarize(values).p10);
    TenthBetween(ordered, 9 * (n - 1), Summarize(values).p90);
    ExtremesAreSamples(values, ordered);
  }

  lemma ExtremesAreSamples(values: seq<real>, ordered: seq<real>)
    requires values != [] && Sorted(ordered) && Rearranged(ordered, values)
    ensures exists i :: 0 <= i < |values| && values[i] == ordered[0]
    ensures exists i :: 0 <= i < |values| && values[i] == ordered[|values| - 1]
    ensures forall i :: 0 <= i < |values| ==> ordered[0] <= values[i] <= ordered[|values| - 1]
  {
    hide Count;
    SampleMoves(ordered, values, 0);
    SampleMoves(ordered, values, |values| - 1);
    forall i | 0 <= i < |values|
      ensures ordered[0] <= values[i] <= ordered[|values| - 1]
    {
      SampleMoves(values, ordered, i);
    }
  }

  lemma SampleMoves(a: seq<real>, b: seq<real>, i: nat)
    requires i < |a| && Rearranged(a, b)
    ensures exists j :: 0 <= j < |b| && b[j] == a[i]
  {
    hide Count;
    CountFinds(a, a[i]);
    CountFinds(b, a[i]);
  }

  ghost predicate EvenlySpaced(values: seq<real>, a: real, b: real) {
    forall i :: 0 <= i < |values| ==> values[i] == a + b * i as real
  }

  /** On evenly spaced samples the percentiles are exactly one and nine tenths of the way. */
  lemma EvenlySpacedPercentiles(values: seq<real>, a: real, b: real)
    requires values != [] && b >= 0.0 && EvenlySpaced(values, a, b)
    ensures var s, n := Summarize(values), |values|;
            && s.Summary?
            && s.p10 == a + b * (n - 1) as real / 10.0
            && s.p90 == a + 9.0 * b * (n - 1) as real / 10.0
  {
    hide IsTenth, Summarize, Sorted, Rearranged, EvenlySpaced, Sum;
    EvenIsSorted(values, a, b);
    FiguresOn(values, values);
    var n := |values| - 1;
    EvenTenth(values, a, b, n, Summarize(values).p10);
    EvenTenth(values, a, b, 9 * n, Summarize(values).p90);
    OneTenth(a, b, n as real, Summarize(values).p10);
    NineTenths(a, b, n as real, Summarize(values).p90);
  }

  lemma OneTenth(a: real, b: real, n: real, value: real)
    requires 10.0 * value == 10.0 * a + b * n
    ensures value == a + b * n / 10.0
  {
  }

  lemma NineTenths(a: real, b: real, n: real, value: real)
    requires 10.0 * value == 10.0 * a + b * (9.0 * n)
    ensures value == a + 9.0 * b * n / 10.0
  {
    assert b * (9.0 * n) == 9.0 * b * n;
  }

  lemma EvenIsSorted(values: seq<real>, a: real, b: real)
    requires b >= 0.0 && EvenlySpaced(values, a, b)
    ensures Sorted(values) && Rearranged(values, values)
  {
    hide Count;
    forall i, j | 0 <= i <= j < |values|
      ensures values[i] <= values[j]
    {
      EvenSamples(values, a, b, i, j);
    }
  }

  lemma EvenSamples(values: seq<real>, a: real, b: real, i: nat, j: nat)
    requires b >= 0.0 && i <= j < |values|
    requires values[i] == a + b * i as real && values[j] == a + b * j as real
    ensures values[i] <= values[j]
  {
    EvenGrows(b, i as real, j as real);
  }

  lemma EvenGrows(b: real, x: real, y: real)
    requires b >= 0.0 && x <= y
    ensures b * x <= b * y
  {
    NotNegative(b, y - x);
    assert b * (y - x) == b * y - b * x;
  }

  lemma EvenTenth(values: seq<real>, a: real, b: real, m: nat, value: real)
    requires EvenlySpaced(values, a, b)
    requires m <= 10 * (|values| - 1) && IsTenth(values, m, value)
    ensures 10.0 * value == 10.0 * a + b * m as real
  {
    var lower, rest := m / 10, m % 10;
    var q, r := lower as real, rest as real;
    assert m as real == 10.0 * q + r;
    assert (10.0 - r) * (a + b * q) == 10.0 * a + 10.0 * (b * q) - r * (a + b * q);
    if rest != 0 {
      assert values[lower + 1] == a + b * q + b;
      assert r * (a + b * q + b) == r * (a + b * q) + r * b;
    }
    assert b * m as real == 10.0 * (b * q) + b * r;
  }

  // ----- Complement

  function Complements(s: seq<real>): seq<real> {
    seq(|s|, i requires 0 <= i < |s| => 1.0 - s[i])
  }

  /** The complement of a summary as the report computes it: quantiles and extremes change places. */
  function ComplementSummary(s: Summary): Summary {
    if s.NoSamples? then s
    else Summary(1.0 - s.mean, 1.0 - s.p90, 1.0 - s.p10, 1.0 - s.max, 1.0 - s.min, s.count)
  }

  function Reversed(s: seq<real>): seq<real> {
    seq(|s|, i requires 0 <= i < |s| => s[|s| - 1 - i])
  }

  lemma {:induction false} CountSnoc(s: seq<real>, x: real, y: real)
    ensures Count(s + [y], x) == Count(s, x) + if x == y then 1 else 0
  {
    if s == [] {
      assert [y][1..] == [];
      assert s + [y] == [y];
    } else {
      CountSnoc(s[1..], x, y);
      assert (s + [y])[1..] == s[1..] + [y];
    }
  }

  lemma {:induction false} CountReversed(s: seq<real>, x: real)
    ensures Count(Reversed(s), x) == Count(s, x)
  {
    if s != [] {
      CountReversed(s[1..], x);
      assert Reversed(s) == Reversed(s[1..]) + [s[0]];
      CountSnoc(Reversed(s[1..]), x, s[0]);
    }
  }

  lemma {:induction false} CountComplements(s: seq<real>, x: real)
    ensures Count(Complements(s), x) == Count(s, 1.0 - x)
  {
    if s != [] {
      CountComplements(s[1..], x);
      assert Complements(s)[1..] == Complements(s[1..]);
    }
  }

  /** Sorting the complements is reversing the complements of the sorted samples. */
  lemma SortedComplements(values: seq<real>)
    ensures SortReals(Complements(values)) == Reversed(Complements(SortReals(values)))
  {
    var ordered := SortReals(values);
    SortRealsSorts(values);
    SortRealsSorts(Complements(values));
    forall x
      ensures Count(SortReals(Complements(values)), x) == Count(Reversed(Complements(ordered)), x)
    {
      CountComplements(values, x);
      CountComplements(ordered, x);
      CountReversed(Complements(ordered), x);
    }
    SortedUnique(SortReals(Complements(values)), Reversed(Complements(ordered)));
  }

  lemma {:induction false} SumSnoc(s: seq<real>, y: real)
    ensures Sum(s + [y]) == Sum(s) + y
  {
    if s == [] {
      assert s + [y] == [y];
    } else {
      SumSnoc(s[1..], y);
      assert (s + [y])[1..] == s[1..] + [y];
    }
  }

  lemma {:induction false} SumReversedComplements(s: seq<real>)
    ensures Sum(Reversed(Complements(s))) == |s| as real - Sum(s)
  {
    if s != [] {
      SumReversedComplements(s[1..]);
      assert Reversed(Complements(s)) == Reversed(Complements(s[1..])) + [1.0 - s[0]];
      SumSnoc(Reversed(Complements(s[1..])), 1.0 - s[0]);
    }
  }

  lemma MixMirrors(a: real, b: real, w: real)
    ensures Mix(1.0 - b, 1.0 - a, w) == 1.0 - Mix(a, b, 1.0 - w)
  {
  }

  /** Reading the mirrored samples is mirroring the reading from the other end. */
  lemma AtMirrors(s: seq<real>, x: real)
    requires s != [] && 0.0 <= x <= (|s| - 1) as real
    ensures At(Reversed(Complements(s)), x) == 1.0 - At(s, (|s| - 1) as real - x)
  {
    hide Mix, Ceil;
    var y := (|s| - 1) as real - x;
    FloorMirrors(|s|, x);
    var m := Reversed(Complements(s));
    assert |m| == |s| && forall i :: 0 <= i < |s| ==> m[i] == 1.0 - s[|s| - 1 - i];
    MixMirrors(s[y.Floor], s[Ceil(y)], x - x.Floor as real);
    if x.Floor != Ceil(x) {
      assert 1.0 - (x - x.Floor as real) == y - y.Floor as real;
    }
  }

  lemma FloorMirrors(n: nat, x: real)
    requires n > 0 && 0.0 <= x <= (n - 1) as real
    ensures var y := (n - 1) as real - x;
            && y.Floor == n - 1 - Ceil(x) && Ceil(y) == n - 1 - x.Floor
            && 0 <= x.Floor <= Ceil(x) < n && Ceil(x) <= x.Floor + 1 && (Ceil(x) == x.Floor <==> x == x.Floor as real)
  {
    FloorShifts(-x, n - 1);
    FloorShifts(x, 1 - n);
  }

  lemma FloorShifts(x: real, k: int)
    ensures (x + k as real).Floor == x.Floor + k
  {
  }

  lemma PositionMirrors(n: nat, p: real, q: real)
    requires n > 0 && 0.0 <= p <= 1.0 && p + q == 1.0
    ensures PercentilePosition(n, p) == (n - 1) as real - PercentilePosition(n, q)
  {
  }

  lemma PercentileMirrors(s: seq<real>, p: real, q: real)
    requires s != [] && 0.0 <= p <= 1.0 && p + q == 1.0
    ensures Percentile(Reversed(Complements(s)), p) == 1.0 - Percentile(s, q)
  {
    hide At, PercentilePosition;
    PositionMirrors(|s|, p, q);
    AtMirrors(s, PercentilePosition(|s|, p));
  }

  lemma MeanMirrors(sum: real, n: real)
    requires n > 0.0
    ensures (n - sum) / n == 1.0 - sum / n
  {
    var mean := sum / n;
    assert mean * n == sum;
    Quotient(n - sum, n, 1.0 - mean);
  }

  lemma Quotient(a: real, n: real, x: real)
    requires n > 0.0 && a == x * n
    ensures a / n == x
  {
    assert a / n * n == a;
    assert (a / n - x) * n == 0.0;
  }

  /** Summarizing the complements is complementing the summary. */
  lemma ComplementReversesSummary(values: seq<real>)
    ensures Summarize(Complements(values)) == ComplementSummary(Summarize(values))
  {
    SortRealsSorts(values);
    SortRealsSorts(Complements(values));
    SortedComplements(values);
    hide SortReals, Percentile, Sum;
    var ordered := SortReals(values);
    if values != [] {
      SumReversedComplements(ordered);
      MeanMirrors(Sum(ordered), |ordered| as real);
      PercentileMirrors(ordered, 0.1, 0.9);
      PercentileMirrors(ordered, 0.9, 0.1);
    }
  }
}
