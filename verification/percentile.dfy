/** Cold-start percentiles: interpolated order statistics, in milliseconds. */
module Percentile {
  import opened Seqs

  const MEDIAN: real := 0.5
  const TAIL: real := 0.95

  // ---------- Sorting, as a function ----------

  function Insert(x: real, s: seq<real>): (r: seq<real>)
    ensures |r| == |s| + 1
  {
    if s == [] || x <= s[0] then [x] + s else [s[0]] + Insert(x, s[1..])
  }

  function Sort(a: seq<real>): (r: seq<real>)
    ensures |r| == |a|
  {
    if a == [] then [] else Insert(a[0], Sort(a[1..]))
  }

  ghost predicate Sorted(s: seq<real>) {
    forall i, j :: 0 <= i < j < |s| ==> s[i] <= s[j]
  }

  // ---------- The source's arithmetic ----------

  /** int64(x): truncation towards zero. */
  function Truncate(x: real): int {
    if x >= 0.0 then x.Floor else -((-x).Floor)
  }

  function Blend(a: real, b: real, f: real): real {
    a * (1.0 - f) + b * f
  }

  function ToMs(seconds: real): int {
    Truncate(seconds * 1000.0)
  }

  /** A fractional position among sorted samples: after the lo-th, a fraction of the way to the next. */
  datatype Rank = Rank(lo: nat, frac: real)

  function RankAt(n: nat, p: real): (r: Rank)
    requires n > 0 && 0.0 <= p
    ensures 0.0 <= r.frac < 1.0
  {
    var rank := p * (n - 1) as real;
    assert rank >= 0.0;
    Rank(rank.Floor, rank - rank.Floor as real)
  }

  /** The value at a fractional position, interpolated between its neighbours. */
  function Interpolate(s: seq<real>, r: Rank): real
    requires s != []
  {
    if r.lo + 1 >= |s| then s[|s| - 1] else Blend(s[r.lo], s[r.lo + 1], r.frac)
  }

  function Milliseconds(s: seq<real>, p: real): int
    requires s != [] && 0.0 <= p
  {
    if |s| == 1 then ToMs(s[0]) else ToMs(Interpolate(s, RankAt(|s|, p)))
  }

  function PercentileMs(samples: seq<real>): (int, int) {
    if samples == [] then (0, 0) else (Milliseconds(Sort(samples), MEDIAN), Milliseconds(Sort(samples), TAIL))
  }

  // ---------- The method ----------

  /** sort.Float64s on a copy, by insertion. */
  method SortFloats(samples: seq<real>) returns (sorted: seq<real>)
    ensures sorted == Sort(samples)
  {
    sorted := [];
    var i := |samples|;
    while i > 0
      invariant 0 <= i <= |samples| && sorted == Sort(samples[i..])
    {
      i := i - 1;
      assert samples[i..][1..] == samples[i + 1..];
      var at := 0;
      while at < |sorted| && sorted[at] < samples[i]
        invariant 0 <= at <= |sorted|
        invariant sorted[..at] + Insert(samples[i], sorted[at..]) == Insert(samples[i], sorted)
      {
        assert sorted[at..][1..] == sorted[at + 1..];
        assert sorted[..at + 1] == sorted[..at] + [sorted[at]];
        Concat3(sorted[..at], [sorted[at]], Insert(samples[i], sorted[at + 1..]));
        at := at + 1;
      }
      assert Insert(samples[i], sorted[at..]) == [samples[i]] + sorted[at..];
      sorted := sorted[..at] + ([samples[i]] + sorted[at..]);
    }
  }

  method ComputePercentileMs(samples: seq<real>) returns (p50: int, p95: int)
    ensures (p50, p95) == PercentileMs(samples) && (samples == [] ==> p50 == 0 && p95 == 0)
  {
    if |samples| == 0 {
      return 0, 0;
    }
    var sorted := SortFloats(samples);
    p50 := Milliseconds(sorted, MEDIAN);
    p95 := Milliseconds(sorted, TAIL);
  }

  // ---------- Sorting facts ----------

  lemma {:induction false} InsertKeeps(x: real, s: seq<real>)
    ensures multiset(Insert(x, s)) == multiset(s) + multiset([x])
    decreases |s|
  {
    if s != [] && x > s[0] {
      InsertKeeps(x, s[1..]);
      assert s == [s[0]] + s[1..];
    }
  }

  lemma {:induction false} InsertSorted(x: real, s: seq<real>)
    requires Sorted(s)
    ensures Sorted(Insert(x, s))
    ensures Insert(x, s)[0] == if s == [] || x <= s[0] then x else s[0]
    decreases |s|
  {
    if s != [] && x > s[0] {
      var rest := Insert(x, s[1..]);
      InsertSorted(x, s[1..]);
      assert s[0] <= rest[0];
      assert Insert(x, s) == [s[0]] + rest;
    }
  }

  lemma {:induction false} SortSorts(a: seq<real>)
    ensures Sorted(Sort(a)) && multiset(Sort(a)) == multiset(a)
    decreases |a|
  {
    if a != [] {
      SortSorts(a[1..]);
      InsertSorted(a[0], Sort(a[1..]));
      InsertKeeps(a[0], Sort(a[1..]));
      assert a == [a[0]] + a[1..];
    }
  }

  lemma {:induction false} InsertCommutes(x: real, y: real, s: seq<real>)
    ensures Insert(x, Insert(y, s)) == Insert(y, Insert(x, s))
    decreases |s|
  {
    if s == [] {
    } else if x <= s[0] || y <= s[0] {
    } else {
      InsertCommutes(x, y, s[1..]);
      assert Insert(y, s) == [s[0]] + Insert(y, s[1..]) && Insert(x, s) == [s[0]] + Insert(x, s[1..]);
      assert Insert(y, s)[1..] == Insert(y, s[1..]) && Insert(x, s)[1..] == Insert(x, s[1..]);
    }
  }

  lemma {:induction false} SortMoves(a: seq<real>, x: real, b: seq<real>)
    ensures Sort(a + ([x] + b)) == Insert(x, Sort(a + b))
    decreases |a|
  {
    if a == [] {
      assert a + ([x] + b) == [x] + b && a + b == b && ([x] + b)[1..] == b;
    } else {
      SortMoves(a[1..], x, b);
      assert (a + ([x] + b))[1..] == a[1..] + ([x] + b) && (a + b)[1..] == a[1..] + b;
      InsertCommutes(a[0], x, Sort(a[1..] + b));
    }
  }

  /** Sorting depends only on which samples there are. */
  lemma {:induction false} SortOfPermutation(a: seq<real>, b: seq<real>)
    requires multiset(a) == multiset(b)
    ensures Sort(a) == Sort(b)
    decreases |a|
  {
    if a == [] {
      assert |multiset(b)| == |b|;
    } else {
      var j := HeadIn(a, b);
      SortOfPermutation(a[1..], RemoveAt(b, j));
      SortMoves(b[..j], b[j], b[j + 1..]);
      assert b == b[..j] + ([b[j]] + b[j + 1..]);
    }
  }

  /** One sample list lies below another, place by place. */
  ghost predicate Below(a: seq<real>, b: seq<real>) {
    |a| == |b| && forall i :: 0 <= i < |a| ==> a[i] <= b[i]
  }

  lemma BelowCons(x: real, s: seq<real>, y: real, t: seq<real>)
    requires x <= y && Below(s, t)
    ensures Below([x] + s, [y] + t)
  {
  }

  lemma {:induction false} InsertMonotone(x: real, s: seq<real>, y: real, t: seq<real>)
    requires x <= y && Below(s, t) && Sorted(s) && Sorted(t)
    ensures Below(Insert(x, s), Insert(y, t))
    decreases |s|
  {
    if s == [] || (x <= s[0] && y <= t[0]) {
      BelowCons(x, s, y, t);
    } else {
      var s', t' := s[1..], t[1..];
      assert s == [s[0]] + s' && t == [t[0]] + t' && Below(s', t');
      if x <= s[0] {
        InsertMonotone(s[0], s', y, t');
        BelowCons(x, s, t[0], Insert(y, t'));
      } else if y <= t[0] {
        InsertMonotone(x, s', t[0], t');
        BelowCons(s[0], Insert(x, s'), y, t);
      } else {
        InsertMonotone(x, s', y, t');
        BelowCons(s[0], Insert(x, s'), t[0], Insert(y, t'));
      }
    }
  }

  lemma {:induction false} SortMonotone(a: seq<real>, b: seq<real>)
    requires Below(a, b)
    ensures Below(Sort(a), Sort(b))
    decreases |a|
  {
    if a != [] {
      SortMonotone(a[1..], b[1..]);
      SortSorts(a[1..]);
      SortSorts(b[1..]);
      InsertMonotone(a[0], Sort(a[1..]), b[0], Sort(b[1..]));
    }
  }

  // ---------- Interpolation facts ----------

  lemma PartOf(d: real, f: real)
    requires 0.0 <= d && 0.0 <= f <= 1.0
    ensures 0.0 <= d * f <= d
  {
  }

  /** A value between two others, at a fraction of the way. */
  lemma Between(a: real, b: real, f: real)
    requires a <= b && 0.0 <= f <= 1.0
    ensures a <= Blend(a, b, f) <= b
  {
    assert Blend(a, b, f) == a + (b - a) * f;
    PartOf(b - a, f);
  }

  lemma FurtherAlong(a: real, b: real, f: real, g: real)
    requires a <= b && f <= g
    ensures Blend(a, b, f) <= Blend(a, b, g)
  {
    assert Blend(a, b, g) - Blend(a, b, f) == (b - a) * (g - f);
  }

  lemma BothHigher(a: real, b: real, a': real, b': real, f: real)
    requires a <= a' && b <= b' && 0.0 <= f <= 1.0
    ensures Blend(a, b, f) <= Blend(a', b', f)
  {
    PartOf(a' - a, 1.0 - f);
    PartOf(b' - b, f);
    assert Blend(a', b', f) - Blend(a, b, f) == Blend(a' - a, b' - b, f);
  }

  lemma InterpolateBounds(s: seq<real>, r: Rank)
    requires Sorted(s) && s != [] && 0.0 <= r.frac <= 1.0
    ensures s[0] <= Interpolate(s, r) <= s[|s| - 1]
    ensures r.lo + 1 < |s| ==> s[r.lo] <= Interpolate(s, r) <= s[r.lo + 1]
  {
    if r.lo + 1 < |s| {
      Between(s[r.lo], s[r.lo + 1], r.frac);
      assert s[0] <= s[r.lo] <= s[r.lo + 1] <= s[|s| - 1];
    }
  }

  ghost predicate NotAfter(r: Rank, q: Rank) {
    r.lo < q.lo || (r.lo == q.lo && r.frac <= q.frac)
  }

  lemma InterpolateMonotoneInRank(s: seq<real>, r: Rank, q: Rank)
    requires Sorted(s) && s != [] && NotAfter(r, q) && 0.0 <= r.frac <= 1.0 && 0.0 <= q.frac <= 1.0
    ensures Interpolate(s, r) <= Interpolate(s, q)
  {
    InterpolateBounds(s, r);
    InterpolateBounds(s, q);
    if r.lo == q.lo && r.lo + 1 < |s| {
      FurtherAlong(s[r.lo], s[r.lo + 1], r.frac, q.frac);
    }
  }

  lemma InterpolateMonotoneInSamples(s: seq<real>, t: seq<real>, r: Rank)
    requires Below(s, t) && s != [] && 0.0 <= r.frac <= 1.0
    ensures Interpolate(s, r) <= Interpolate(t, r)
  {
    if r.lo + 1 < |s| {
      BothHigher(s[r.lo], s[r.lo + 1], t[r.lo], t[r.lo + 1], r.frac);
    }
  }

  lemma Scaled(p: real, q: real, m: real)
    requires p <= q && 0.0 <= m
    ensures p * m <= q * m
  {
  }

  lemma ToMsMonotone(x: real, y: real)
    requires x <= y
    ensures ToMs(x) <= ToMs(y)
  {
  }

  // ---------- The properties of the percentiles ----------

  /** The percentiles depend only on which samples there are, not on their order. */
  lemma OrderDoesNotMatter(a: seq<real>, b: seq<real>)
    requires multiset(a) == multiset(b)
    ensures PercentileMs(a) == PercentileMs(b)
  {
    SortOfPermutation(a, b);
    assert |multiset(a)| == |a| && |multiset(b)| == |b|;
  }

  /** One percentile of sorted samples lies between the first and the last. */
  lemma MillisecondsBounds(s: seq<real>, p: real)
    requires Sorted(s) && s != [] && 0.0 <= p
    ensures ToMs(s[0]) <= Milliseconds(s, p) <= ToMs(s[|s| - 1])
  {
    var r := RankAt(|s|, p);
    InterpolateBounds(s, r);
    ToMsMonotone(s[0], Interpolate(s, r));
    ToMsMonotone(Interpolate(s, r), s[|s| - 1]);
  }

  lemma MillisecondsMonotone(s: seq<real>, p: real, q: real)
    requires Sorted(s) && s != [] && 0.0 <= p <= q
    ensures Milliseconds(s, p) <= Milliseconds(s, q)
  {
    InterpolateMonotoneInRank(s, RankAt(|s|, p), RankAt(|s|, q));
    ToMsMonotone(Interpolate(s, RankAt(|s|, p)), Interpolate(s, RankAt(|s|, q)));
  }

  /** Both percentiles lie between the least and the greatest sample, the median below the tail. */
  lemma PercentilesAreOrdered(samples: seq<real>, least: real, greatest: real)
    requires samples != [] && forall i :: 0 <= i < |samples| ==> least <= samples[i] <= greatest
    ensures ToMs(least) <= PercentileMs(samples).0 <= PercentileMs(samples).1 <= ToMs(greatest)
  {
    var s := Sort(samples);
    SortSorts(samples);
    assert s[0] in multiset(samples) && s[|s| - 1] in multiset(samples);
    ToMsMonotone(least, s[0]);
    MillisecondsBounds(s, MEDIAN);
    MillisecondsMonotone(s, MEDIAN, TAIL);
    MillisecondsBounds(s, TAIL);
    ToMsMonotone(s[|s| - 1], greatest);
  }

  lemma MillisecondsOfHigher(s: seq<real>, t: seq<real>, p: real)
    requires Below(s, t) && s != [] && 0.0 <= p
    ensures Milliseconds(s, p) <= Milliseconds(t, p)
  {
    var r := RankAt(|s|, p);
    InterpolateMonotoneInSamples(s, t, r);
    ToMsMonotone(Interpolate(s, r), Interpolate(t, r));
    ToMsMonotone(s[0], t[0]);
  }

  /** Raising samples never lowers a percentile. */
  lemma RaisingNeverLowers(a: seq<real>, b: seq<real>)
    requires Below(a, b)
    ensures PercentileMs(a).0 <= PercentileMs(b).0 && PercentileMs(a).1 <= PercentileMs(b).1
  {
    if a != [] {
      SortMonotone(a, b);
      MillisecondsOfHigher(Sort(a), Sort(b), MEDIAN);
      MillisecondsOfHigher(Sort(a), Sort(b), TAIL);
    }
  }

  // ---------- What the percentiles are ----------

  lemma {:induction false} SortOfSorted(s: seq<real>)
    requires Sorted(s)
    ensures Sort(s) == s
    decreases |s|
  {
    if s != [] {
      SortOfSorted(s[1..]);
      assert s == [s[0]] + s[1..];
    }
  }

  /** m is x without its fraction. */
  predicate WithoutFraction(x: real, m: int) {
    if x >= 0.0 then m as real <= x < m as real + 1.0 else m as real - 1.0 < x <= m as real
  }

  /** The mean of 20 values, r of them b and the others a. */
  function Weighted(a: real, b: real, r: nat): real {
    ((20 - r) as real * a + r as real * b) / 20.0
  }

  /** k is a number of twentieths: the samples at the whole places before and after k / 20, weighted by their distance. */
  function AtTwentieths(s: seq<real>, k: nat): real
    requires k / 20 < |s|
  {
    var lo := k / 20;
    var next := if lo + 1 < |s| then lo + 1 else lo;
    Weighted(s[lo], s[next], k % 20)
  }

  lemma RankInTwentieths(n: nat, p: real, twentieths: nat, k: nat)
    requires n > 0 && 0.0 <= p && 20.0 * p == twentieths as real && k == twentieths * (n - 1)
    ensures RankAt(n, p) == Rank(k / 20, (k % 20) as real / 20.0)
  {
    var q, r := k / 20, k % 20;
    assert k == 20 * q + r;
    assert 20.0 * (p * (n - 1) as real) == (20.0 * p) * (n - 1) as real == k as real;
    assert p * (n - 1) as real == q as real + r as real / 20.0;
  }

  lemma WeightedIsBlend(a: real, b: real, r: nat)
    ensures Weighted(a, b, r) == Blend(a, b, r as real / 20.0)
  {
    var x := r as real;
    var f := x / 20.0;
    assert x == 20.0 * f;
    assert (20.0 - x) * a + x * b == 20.0 * (a * (1.0 - f) + b * f);
  }

  lemma WeightedOfNone(a: real, b: real)
    ensures Weighted(a, b, 0) == a
  {
  }

  lemma PlaceFits(twentieths: nat, m: nat, k: nat)
    requires twentieths < 20 && k == twentieths * m
    ensures k / 20 <= m && (m > 0 ==> k / 20 < m)
  {
    assert k <= 19 * m;
  }

  lemma TruncateDrops(seconds: real)
    ensures WithoutFraction(1000.0 * seconds, ToMs(seconds))
  {
  }

  lemma MillisecondsAtPlace(s: seq<real>, p: real, k: nat, lo: nat, r: nat, v: real)
    requires 0.0 <= p && lo == k / 20 < |s| && r == k % 20 && (|s| == 1 ==> k == 0) && (|s| > 1 ==> lo + 1 < |s|)
    requires RankAt(|s|, p) == Rank(lo, r as real / 20.0) && v == AtTwentieths(s, k)
    ensures Milliseconds(s, p) == ToMs(v)
  {
    if |s| > 1 {
      WeightedIsBlend(s[lo], s[lo + 1], r);
    } else {
      WeightedOfNone(s[0], s[0]);
    }
  }

  lemma MillisecondsInTwentieths(s: seq<real>, p: real, twentieths: nat, k: nat)
    requires s != [] && 0.0 <= p && twentieths < 20 && 20.0 * p == twentieths as real && k == twentieths * (|s| - 1)
    ensures k / 20 < |s| && WithoutFraction(1000.0 * AtTwentieths(s, k), Milliseconds(s, p))
  {
    PlaceFits(twentieths, |s| - 1, k);
    RankInTwentieths(|s|, p, twentieths, k);
    MillisecondsAtPlace(s, p, k, k / 20, k % 20, AtTwentieths(s, k));
    TruncateDrops(AtTwentieths(s, k));
  }

  /**
   * Over the samples in ascending order, p50 lies at half and p95 at nineteen twentieths of the way from the first
   * to the last, interpolated between neighbours; both are given in whole milliseconds.
   */
  lemma PercentilesInterpolate(samples: seq<real>, s: seq<real>)
    requires samples != [] && multiset(s) == multiset(samples) && Sorted(s)
    ensures |s| == |samples| && 10 * (|s| - 1) / 20 < |s| && 19 * (|s| - 1) / 20 < |s|
    ensures WithoutFraction(1000.0 * AtTwentieths(s, 10 * (|s| - 1)), PercentileMs(samples).0)
    ensures WithoutFraction(1000.0 * AtTwentieths(s, 19 * (|s| - 1)), PercentileMs(samples).1)
  {
    assert |multiset(s)| == |s| && |multiset(samples)| == |samples|;
    SortOfPermutation(samples, s);
    SortOfSorted(s);
    MillisecondsInTwentieths(s, MEDIAN, 10, 10 * (|s| - 1));
    MillisecondsInTwentieths(s, TAIL, 19, 19 * (|s| - 1));
  }

  lemma WeightedOfTwo(a: real, b: real)
    ensures Weighted(a, b, 10) == (a + b) / 2.0
  {
  }

  /** Of an odd number of samples that is the middle one, of an even number the mean of the middle two. */
  lemma MedianIsMiddle(s: seq<real>, h: nat, k: nat)
    requires k == 10 * (|s| - 1) && k / 20 < |s|
    ensures |s| == 2 * h + 1 ==> AtTwentieths(s, k) == s[h]
    ensures |s| == 2 * h + 2 ==> AtTwentieths(s, k) == (s[h] + s[h + 1]) / 2.0
  {
    if |s| == 2 * h + 1 {
      assert k / 20 == h && k % 20 == 0;
      WeightedOfNone(s[h], if h + 1 < |s| then s[h + 1] else s[h]);
    } else if |s| == 2 * h + 2 {
      assert k / 20 == h && k % 20 == 10;
      WeightedOfTwo(s[h], s[h + 1]);
    }
  }
}
