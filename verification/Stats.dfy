/** Interpolated percentiles, bootstrap intervals of the median and paired comparisons, over reals. */
module Stats {
  import opened Wrappers
  import opened Arithmetic
  import opened Sorting

  predicate Ascending(a: real, b: real) {
    a <= b
  }

  /** The value between a and b at weight w. */
  function Mix(a: real, b: real, w: real): real {
    a * (1.0 - w) + b * w
  }

  /** The value of a sorted sequence at a fractional rank, by linear interpolation. */
  function AtRank(sorted: seq<real>, rank: real): real
    requires sorted != [] && 0.0 <= rank <= (|sorted| - 1) as real
  {
    var lower := rank.Floor;
    var upper := if lower + 1 < |sorted| - 1 then lower + 1 else |sorted| - 1;
    Mix(sorted[lower], sorted[upper], rank - lower as real)
  }

  function Rank(count: nat, fraction: real): (r: real)
    requires count > 0 && 0.0 <= fraction <= 1.0
    ensures 0.0 <= r <= (count - 1) as real
  {
    RankInside(count, fraction);
    fraction * (count - 1) as real
  }

  lemma RankInside(count: nat, fraction: real)
    requires count > 0 && 0.0 <= fraction <= 1.0
    ensures 0.0 <= fraction * (count - 1) as real <= (count - 1) as real
  {
    if count > 1 {
      Monotone(0.0, fraction, (count - 1) as real);
      Monotone(fraction, 1.0, (count - 1) as real);
    }
  }

  function SortedPercentile(sorted: seq<real>, fraction: real): real
    requires sorted != [] && 0.0 <= fraction <= 1.0
  {
    AtRank(sorted, Rank(|sorted|, fraction))
  }

  function Percentile(samples: seq<real>, fraction: real): Option<real>
    requires samples == [] || 0.0 <= fraction <= 1.0
  {
    if samples == [] then None else Some(SortedPercentile(Sort(Ascending, samples), fraction))
  }

  function Median(samples: seq<real>): Option<real> {
    Percentile(samples, 0.5)
  }

  // ---------- Interpolation ----------

  lemma MixOrder(a: real, b: real, c: real, d: real, w: real)
    requires 0.0 <= w <= 1.0 && a <= c && b <= d
    ensures Mix(a, b, w) <= Mix(c, d, w)
  {
    assert a * (1.0 - w) <= c * (1.0 - w);
    assert b * w <= d * w;
  }

  lemma MixSame(a: real, w: real)
    ensures Mix(a, a, w) == a
  {
  }

  lemma MixBetween(a: real, b: real, w: real)
    requires a <= b && 0.0 <= w <= 1.0
    ensures a <= Mix(a, b, w) <= b
  {
    MixOrder(a, a, a, b, w);
    MixOrder(a, b, b, b, w);
    MixSame(a, w);
    MixSame(b, w);
  }

  lemma MixWeight(a: real, b: real, v: real, w: real)
    requires a <= b && v <= w
    ensures Mix(a, b, v) <= Mix(a, b, w)
  {
    assert Mix(a, b, w) - Mix(a, b, v) == (b - a) * (w - v);
    assert (b - a) * (w - v) >= 0.0;
  }

  ghost predicate Ordered(s: seq<real>) {
    forall i, j | 0 <= i <= j < |s| :: s[i] <= s[j]
  }

  lemma SortOrders(xs: seq<real>)
    ensures Ordered(Sort(Ascending, xs))
    ensures forall x :: x in Sort(Ascending, xs) <==> x in xs
  {
    var s := Sort(Ascending, xs);
    SortSorted(Ascending, xs);
    SortElements(Ascending, xs);
    forall i, j | 0 <= i <= j < |s| ensures s[i] <= s[j] {
      assert i == j || Ascending(s[i], s[j]);
    }
    forall x ensures x in s <==> x in xs {
      assert x in multiset(s) <==> x in multiset(xs);
    }
  }

  /** A value at a rank lies between the entries around it. */
  lemma RankBetween(s: seq<real>, rank: real)
    requires Ordered(s) && s != [] && 0.0 <= rank <= (|s| - 1) as real
    ensures s[rank.Floor] <= AtRank(s, rank)
    ensures rank.Floor + 1 < |s| ==> AtRank(s, rank) <= s[rank.Floor + 1]
    ensures s[0] <= AtRank(s, rank) <= s[|s| - 1]
  {
    hide Mix;
    var lower := rank.Floor;
    var upper := if lower + 1 < |s| - 1 then lower + 1 else |s| - 1;
    MixBetween(s[lower], s[upper], rank - lower as real);
  }

  lemma RankMonotone(s: seq<real>, x: real, y: real)
    requires Ordered(s) && s != [] && 0.0 <= x <= y <= (|s| - 1) as real
    ensures AtRank(s, x) <= AtRank(s, y)
  {
    hide Mix;
    if x.Floor == y.Floor {
      var lower := x.Floor;
      var upper := if lower + 1 < |s| - 1 then lower + 1 else |s| - 1;
      MixWeight(s[lower], s[upper], x - lower as real, y - lower as real);
    } else {
      RankBetween(s, x);
      RankBetween(s, y);
      assert s[x.Floor + 1] <= s[y.Floor];
    }
  }

  // ---------- Percentiles ----------

  ghost predicate Within(samples: seq<real>, low: real, high: real) {
    forall x <- samples :: low <= x <= high
  }

  lemma SortedPercentileWithin(s: seq<real>, fraction: real, low: real, high: real)
    requires Ordered(s) && s != [] && Within(s, low, high) && 0.0 <= fraction <= 1.0
    ensures low <= SortedPercentile(s, fraction) <= high
  {
    RankBetween(s, Rank(|s|, fraction));
    assert s[0] in s && s[|s| - 1] in s;
  }

  /** Whatever bounds the samples bounds every percentile, and the bounds are met: fractions 0 and 1
      give the smallest and the largest sample. */
  lemma PercentileWithin(samples: seq<real>, fraction: real, low: real, high: real)
    requires samples != [] && Within(samples, low, high) && 0.0 <= fraction <= 1.0
    ensures low <= Percentile(samples, fraction).value <= high
    ensures Percentile(samples, 0.0).value in samples && Percentile(samples, 1.0).value in samples
    ensures Within(samples, Percentile(samples, 0.0).value, Percentile(samples, 1.0).value)
  {
    hide Rank;
    var s := Sort(Ascending, samples);
    SortOrders(samples);
    SortedPercentileWithin(s, fraction, low, high);
    RankAtEnds(s);
    assert s[0] in s && s[|s| - 1] in s;
    forall x <- samples ensures s[0] <= x <= s[|s| - 1] {
      var i :| 0 <= i < |s| && s[i] == x;
    }
  }

  lemma RankAtEnds(s: seq<real>)
    requires s != []
    ensures SortedPercentile(s, 0.0) == s[0] && SortedPercentile(s, 1.0) == s[|s| - 1]
  {
    assert Rank(|s|, 0.0) == 0.0;
    assert Rank(|s|, 1.0) == (|s| - 1) as real;
    assert ((|s| - 1) as real).Floor == |s| - 1;
  }

  /** Percentiles grow with the fraction. */
  lemma PercentileMonotone(samples: seq<real>, f: real, g: real)
    requires samples != [] && 0.0 <= f <= g <= 1.0
    ensures Percentile(samples, f).value <= Percentile(samples, g).value
  {
    SortOrders(samples);
    SortedPercentileMonotone(Sort(Ascending, samples), f, g);
  }

  lemma SortedPercentileMonotone(s: seq<real>, f: real, g: real)
    requires Ordered(s) && s != [] && 0.0 <= f <= g <= 1.0
    ensures SortedPercentile(s, f) <= SortedPercentile(s, g)
  {
    hide Rank;
    RankOrder(|s|, f, g);
    RankMonotone(s, Rank(|s|, f), Rank(|s|, g));
  }

  lemma RankOrder(count: nat, f: real, g: real)
    requires count > 0 && 0.0 <= f <= g <= 1.0
    ensures Rank(count, f) <= Rank(count, g)
  {
    if count > 1 {
      Monotone(f, g, (count - 1) as real);
    }
  }

  lemma AscendingTotal()
    ensures TotalOrder(Ascending)
  {
  }

  /** Percentiles do not depend on the order of the samples. */
  lemma PercentileOfPermutation(a: seq<real>, b: seq<real>, fraction: real)
    requires multiset(a) == multiset(b) && 0.0 <= fraction <= 1.0
    ensures Percentile(a, fraction) == Percentile(b, fraction)
  {
    AscendingTotal();
    SortOfPermutation(Ascending, a, b);
    assert |a| == |multiset(a)| == |multiset(b)| == |b|;
  }

  /** The median is the middle sample, or the mean of the two middle ones. */
  lemma MedianIsMiddle(samples: seq<real>)
    requires samples != []
    ensures var s, n := Sort(Ascending, samples), |samples|;
            Median(samples).value
              == if n % 2 == 1 then s[n / 2] else (s[n / 2 - 1] + s[n / 2]) / 2.0
  {
    hide Sort, SortedPercentile;
    var s, n := Sort(Ascending, samples), |samples|;
    if n % 2 == 1 {
      OddMiddle(s, n / 2);
    } else {
      EvenMiddle(s, n / 2);
    }
  }

  lemma OddMiddle(s: seq<real>, k: nat)
    requires |s| == 2 * k + 1
    ensures SortedPercentile(s, 0.5) == s[k]
  {
    hide AtRank, Rank;
    AtWholeRank(s, k);
    RankIs(|s|, 0.5);
    assert Rank(|s|, 0.5) == k as real;
  }

  lemma EvenMiddle(s: seq<real>, k: nat)
    requires |s| == 2 * k > 0
    ensures SortedPercentile(s, 0.5) == (s[k - 1] + s[k]) / 2.0
  {
    hide AtRank, Rank;
    RankIs(|s|, 0.5);
    WithinStep(s, Rank(|s|, 0.5), k - 1);
    assert Rank(|s|, 0.5) - (k - 1) as real == 0.5;
  }

  // ---------- Interpolation between ranks ----------

  /** s lists the samples from the smallest to the largest. */
  ghost predicate Lists(s: seq<real>, samples: seq<real>) {
    Ordered(s) && multiset(s) == multiset(samples)
  }

  lemma ListsSorted(s: seq<real>, samples: seq<real>)
    requires Lists(s, samples)
    ensures s == Sort(Ascending, samples) && |s| == |samples|
  {
    AscendingTotal();
    SortOfPermutation(Ascending, s, samples);
    SortSorted(Ascending, s);
    SortElements(Ascending, s);
    SortedUnique(Ascending, s, Sort(Ascending, s));
    assert |s| == |multiset(s)| == |multiset(samples)| == |samples|;
  }

  lemma AtWholeRank(s: seq<real>, i: nat)
    requires i < |s|
    ensures AtRank(s, i as real) == s[i]
  {
    assert (i as real).Floor == i;
  }

  lemma WithinStep(s: seq<real>, rank: real, i: nat)
    requires i + 1 < |s| && i as real <= rank <= (i + 1) as real
    ensures AtRank(s, rank) == s[i] + (rank - i as real) * (s[i + 1] - s[i])
  {
    if rank == (i + 1) as real {
      AtWholeRank(s, i + 1);
    } else {
      var w := rank - i as real;
      assert rank.Floor == i;
      assert s[i] * (1.0 - w) + s[i + 1] * w == s[i] + w * (s[i + 1] - s[i]);
    }
  }

  lemma PercentileAt(samples: seq<real>, s: seq<real>, fraction: real, rank: real)
    requires Lists(s, samples) && s != [] && 0.0 <= fraction <= 1.0
    requires rank == fraction * (|s| - 1) as real && 0.0 <= rank <= (|s| - 1) as real
    ensures Percentile(samples, fraction) == Some(AtRank(s, rank))
  {
    hide AtRank, Rank, Sort, Lists;
    ListsSorted(s, samples);
    RankIs(|s|, fraction);
    assert Rank(|s|, fraction) == rank;
    assert SortedPercentile(s, fraction) == AtRank(s, rank);
  }

  /** Where the fraction of n - 1 is a whole number i, the percentile is the i-th smallest sample. */
  lemma PercentileAtRank(samples: seq<real>, s: seq<real>, fraction: real, i: nat)
    requires Lists(s, samples) && i < |s| && 0.0 <= fraction <= 1.0
    requires fraction * (|s| - 1) as real == i as real
    ensures Percentile(samples, fraction) == Some(s[i])
  {
    hide AtRank, Rank, Sort, Lists;
    PercentileAt(samples, s, fraction, i as real);
    AtWholeRank(s, i);
  }

  /** Between the i-th smallest sample and the next one the percentile is affine in the fraction. */
  lemma PercentileAffine(samples: seq<real>, f: real, g: real, h: real, i: nat)
    requires 0.0 <= f <= g <= h <= 1.0 && i + 1 < |samples|
    requires i as real <= f * (|samples| - 1) as real && h * (|samples| - 1) as real <= (i + 1) as real
    ensures var p, q, r := Percentile(samples, f).value, Percentile(samples, g).value, Percentile(samples, h).value;
            (q - p) * (h - f) == (r - p) * (g - f)
  {
    hide AtRank, Rank, Sort;
    var s, n := Sort(Ascending, samples), |samples|;
    RankIs(n, f);
    RankIs(n, g);
    RankIs(n, h);
    RankOrder(n, f, g);
    RankOrder(n, g, h);
    var x, y, z := Rank(n, f), Rank(n, g), Rank(n, h);
    StepAffine(s, i, (n - 1) as real, f, g, h, x, y, z);
  }

  lemma StepAffine(s: seq<real>, i: nat, n: real, f: real, g: real, h: real, x: real, y: real, z: real)
    requires i + 1 < |s| && i as real <= x <= y <= z <= (i + 1) as real
    requires x == f * n && y == g * n && z == h * n
    ensures (AtRank(s, y) - AtRank(s, x)) * (h - f) == (AtRank(s, z) - AtRank(s, x)) * (g - f)
  {
    hide AtRank;
    WithinStep(s, x, i);
    WithinStep(s, y, i);
    WithinStep(s, z, i);
    Affine(s[i], s[i + 1] - s[i], n, i as real, f, g, h);
  }

  lemma RankIs(n: nat, fraction: real)
    requires n > 0 && 0.0 <= fraction <= 1.0
    ensures Rank(n, fraction) == fraction * (n - 1) as real
  {
  }

  lemma Affine(a: real, d: real, n: real, k: real, f: real, g: real, h: real)
    ensures var p, q, r := a + (f * n - k) * d, a + (g * n - k) * d, a + (h * n - k) * d;
            (q - p) * (h - f) == (r - p) * (g - f)
  {
    var step := n * d;
    assert (g * n - k) * d - (f * n - k) * d == (g - f) * step;
    assert (h * n - k) * d - (f * n - k) * d == (h - f) * step;
    assert ((g - f) * step) * (h - f) == ((h - f) * step) * (g - f);
  }

  /** The n terms a, a + b, a + 2 b and so on. */
  function Progression(a: real, b: real, n: nat): (r: seq<real>)
    ensures |r| == n
  {
    seq(n, i requires 0 <= i < n => LineAt(a, b, i as real))
  }

  function LineAt(a: real, b: real, x: real): real {
    a + b * x
  }

  lemma ProgressionOrdered(a: real, b: real, n: nat)
    requires b >= 0.0
    ensures Ordered(Progression(a, b, n))
  {
    hide LineAt;
    forall i, j | 0 <= i <= j < n ensures Progression(a, b, n)[i] <= Progression(a, b, n)[j] {
      Rising(a, b, i as real, j as real);
    }
  }

  lemma Rising(a: real, b: real, x: real, y: real)
    requires b >= 0.0 && x <= y
    ensures LineAt(a, b, x) <= LineAt(a, b, y)
  {
    assert b * (y - x) >= 0.0;
    assert b * y == b * x + b * (y - x);
  }

  /** The terms of a rising arithmetic progression, in any order, have the percentile that the
      progression takes at the fraction of n - 1. */
  lemma PercentileOfProgression(samples: seq<real>, a: real, b: real, fraction: real)
    requires samples != [] && b >= 0.0 && 0.0 <= fraction <= 1.0
    requires multiset(samples) == multiset(Progression(a, b, |samples|))
    ensures Percentile(samples, fraction) == Some(a + b * fraction * (|samples| - 1) as real)
  {
    hide AtRank, Percentile, Progression, LineAt;
    var rank := fraction * (|samples| - 1) as real;
    RankInside(|samples|, fraction);
    ProgressionOrdered(a, b, |samples|);
    ProgressionAtRank(a, b, |samples|, rank);
    PercentileAt(samples, Progression(a, b, |samples|), fraction, rank);
    LineAtProduct(a, b, fraction, (|samples| - 1) as real, rank);
  }

  lemma LineAtProduct(a: real, b: real, f: real, n: real, rank: real)
    requires rank == f * n
    ensures LineAt(a, b, rank) == a + b * f * n
  {
  }

  lemma ProgressionAtRank(a: real, b: real, n: nat, rank: real)
    requires n > 0 && 0.0 <= rank <= (n - 1) as real
    ensures AtRank(Progression(a, b, n), rank) == LineAt(a, b, rank)
  {
    hide AtRank, LineAt;
    var s := Progression(a, b, n);
    if rank == (n - 1) as real {
      AtWholeRank(s, n - 1);
    } else {
      var i := rank.Floor;
      WithinStep(s, rank, i);
      OneStep(a, b, i as real, rank);
    }
  }

  lemma OneStep(a: real, b: real, i: real, rank: real)
    ensures LineAt(a, b, i) + (rank - i) * (LineAt(a, b, i + 1.0) - LineAt(a, b, i)) == LineAt(a, b, rank)
  {
    assert LineAt(a, b, i + 1.0) - LineAt(a, b, i) == b;
  }

  // ---------- Domination ----------

  ghost predicate Below(a: seq<real>, b: seq<real>) {
    |a| == |b| && forall i | 0 <= i < |a| :: a[i] <= b[i]
  }

  lemma BelowCons(x: real, s: seq<real>, y: real, t: seq<real>)
    requires x <= y && Below(s, t)
    ensures Below([x] + s, [y] + t)
  {
  }

  lemma InsertHead(s: seq<real>)
    requires Ordered(s) && s != []
    ensures Insert(Ascending, s[0], s[1..]) == s
  {
    if |s| > 1 {
      assert s[0] <= s[1];
    }
  }

  /** Inserting a smaller value into a dominated sequence keeps it dominated. */
  lemma {:induction false} InsertBelow(x: real, s: seq<real>, y: real, t: seq<real>)
    requires Ordered(s) && Ordered(t) && Below(s, t) && x <= y
    ensures Below(Insert(Ascending, x, s), Insert(Ascending, y, t))
    decreases |s|
  {
    if s == [] {
      assert t == [];
    } else if x <= s[0] && y <= t[0] {
      BelowCons(x, s, y, t);
    } else if x <= s[0] {
      InsertHead(s);
      InsertBelow(s[0], s[1..], y, t[1..]);
      BelowCons(x, s, t[0], Insert(Ascending, y, t[1..]));
    } else if y <= t[0] {
      InsertHead(t);
      InsertBelow(x, s[1..], t[0], t[1..]);
      BelowCons(s[0], Insert(Ascending, x, s[1..]), y, t);
    } else {
      InsertBelow(x, s[1..], y, t[1..]);
      BelowCons(s[0], Insert(Ascending, x, s[1..]), t[0], Insert(Ascending, y, t[1..]));
    }
  }

  /** Sorting keeps pointwise domination, although it compares other pairs. */
  lemma {:induction false} SortBelow(a: seq<real>, b: seq<real>)
    requires Below(a, b)
    ensures Below(Sort(Ascending, a), Sort(Ascending, b))
  {
    if a != [] {
      SortBelow(a[1..], b[1..]);
      SortOrders(a[1..]);
      SortOrders(b[1..]);
      InsertBelow(a[0], Sort(Ascending, a[1..]), b[0], Sort(Ascending, b[1..]));
    }
  }

  lemma SortedPercentileBelow(s: seq<real>, t: seq<real>, fraction: real)
    requires Below(s, t) && s != [] && 0.0 <= fraction <= 1.0
    ensures SortedPercentile(s, fraction) <= SortedPercentile(t, fraction)
  {
    hide Mix, Rank;
    var rank := Rank(|s|, fraction);
    var lower := rank.Floor;
    var upper := if lower + 1 < |s| - 1 then lower + 1 else |s| - 1;
    MixOrder(s[lower], s[upper], t[lower], t[upper], rank - lower as real);
  }

  /** If each sample of a is at most the sample of b beside it, so is every percentile. */
  lemma PercentileBelow(a: seq<real>, b: seq<real>, fraction: real)
    requires Below(a, b) && a != [] && 0.0 <= fraction <= 1.0
    ensures Percentile(a, fraction).value <= Percentile(b, fraction).value
  {
    SortBelow(a, b);
    SortedPercentileBelow(Sort(Ascending, a), Sort(Ascending, b), fraction);
  }

  // ---------- The bootstrap ----------

  /** A random state: `uniform(n, state)` is a value in 1..n and the next state. */
  datatype Rng<!S> = Rng(uniform: (nat, S) -> (nat, S), seed: S)

  ghost predicate Uniform<S(!new)>(rng: Rng<S>) {
    forall n: nat, state: S | n > 0 :: 1 <= rng.uniform(n, state).0 <= n
  }

  const RESAMPLES := 1000

  /** `k` values drawn with replacement. */
  function Resample<S(!new)>(rng: Rng<S>, values: seq<real>, k: nat, state: S): (r: (seq<real>, S))
    requires Uniform(rng) && values != []
    ensures |r.0| == k && forall x <- r.0 :: x in values
    decreases k
  {
    if k == 0 then ([], state)
    else
      var (index, next) := rng.uniform(|values|, state);
      var (rest, last) := Resample(rng, values, k - 1, next);
      ([values[index - 1]] + rest, last)
  }

  /** The medians of `k` resamples. */
  function Medians<S(!new)>(rng: Rng<S>, values: seq<real>, k: nat, state: S): (r: (seq<real>, S))
    requires Uniform(rng) && values != []
    ensures |r.0| == k
    decreases k
  {
    if k == 0 then ([], state)
    else
      var (resample, next) := Resample(rng, values, |values|, state);
      var (rest, last) := Medians(rng, values, k - 1, next);
      ([SortedPercentile(Sort(Ascending, resample), 0.5)] + rest, last)
  }

  /** The two tails must be fractions, so the confidence lies in [-1, 1]. */
  function MedianCi<S(!new)>(rng: Rng<S>, samples: seq<real>, confidence: real): Option<(real, real)>
    requires Uniform(rng) && (|samples| > 1 ==> -1.0 <= confidence <= 1.0)
  {
    if samples == [] then None
    else if |samples| == 1 then Some((samples[0], samples[0]))
    else
      var sorted := Sort(Ascending, Medians(rng, samples, RESAMPLES, rng.seed).0);
      var tail := (1.0 - confidence) / 2.0;
      Some((SortedPercentile(sorted, tail), SortedPercentile(sorted, 1.0 - tail)))
  }

  lemma {:induction false} MediansWithin<S(!new)>(
    rng: Rng<S>, values: seq<real>, k: nat, state: S, low: real, high: real)
    requires Uniform(rng) && values != [] && Within(values, low, high)
    ensures Within(Medians(rng, values, k, state).0, low, high)
    decreases k
  {
    hide SortedPercentile;
    if k > 0 {
      var (resample, next) := Resample(rng, values, |values|, state);
      SortOrders(resample);
      SortedPercentileWithin(Sort(Ascending, resample), 0.5, low, high);
      MediansWithin(rng, values, k - 1, next, low, high);
    }
  }

  /** Whatever the random stream, the interval lies inside every bound of the samples; it is ordered
      for a confidence that is not negative, and reversed for one that is not positive. */
  lemma IntervalInside<S(!new)>(rng: Rng<S>, samples: seq<real>, confidence: real, low: real, high: real)
    requires Uniform(rng) && samples != [] && -1.0 <= confidence <= 1.0 && Within(samples, low, high)
    ensures var (from, to) := MedianCi(rng, samples, confidence).value;
            && low <= from <= high && low <= to <= high
            && (confidence >= 0.0 ==> from <= to)
            && (confidence <= 0.0 ==> to <= from)
  {
    hide SortedPercentile, Sort, Medians;
    if |samples| == 1 {
      assert samples[0] in samples;
    } else {
      var medians := Medians(rng, samples, RESAMPLES, rng.seed).0;
      var sorted := Sort(Ascending, medians);
      var tail := (1.0 - confidence) / 2.0;
      MediansWithin(rng, samples, RESAMPLES, rng.seed, low, high);
      SortOrders(medians);
      SortedPercentileWithin(sorted, tail, low, high);
      SortedPercentileWithin(sorted, 1.0 - tail, low, high);
      if confidence >= 0.0 {
        SortedPercentileMonotone(sorted, tail, 1.0 - tail);
      }
      if confidence <= 0.0 {
        SortedPercentileMonotone(sorted, 1.0 - tail, tail);
      }
    }
  }

  lemma {:induction false} ResampleBelow<S(!new)>(rng: Rng<S>, a: seq<real>, b: seq<real>, k: nat, state: S)
    requires Uniform(rng) && a != [] && Below(a, b)
    ensures Below(Resample(rng, a, k, state).0, Resample(rng, b, k, state).0)
    ensures Resample(rng, a, k, state).1 == Resample(rng, b, k, state).1
    decreases k
  {
    if k > 0 {
      ResampleBelow(rng, a, b, k - 1, rng.uniform(|a|, state).1);
    }
  }

  lemma {:induction false} MediansBelow<S(!new)>(rng: Rng<S>, a: seq<real>, b: seq<real>, k: nat, state: S)
    requires Uniform(rng) && a != [] && Below(a, b)
    ensures Below(Medians(rng, a, k, state).0, Medians(rng, b, k, state).0)
    decreases k
  {
    hide SortedPercentile, Sort, Resample;
    if k > 0 {
      var (x, next) := Resample(rng, a, |a|, state);
      var (y, next') := Resample(rng, b, |b|, state);
      ResampleBelow(rng, a, b, |a|, state);
      SortBelow(x, y);
      SortedPercentileBelow(Sort(Ascending, x), Sort(Ascending, y), 0.5);
      MediansBelow(rng, a, b, k - 1, next);
    }
  }

  /** Both ends of the interval grow with the samples. */
  lemma IntervalBelow<S(!new)>(rng: Rng<S>, a: seq<real>, b: seq<real>, confidence: real)
    requires Uniform(rng) && a != [] && Below(a, b) && -1.0 <= confidence <= 1.0
    ensures MedianCi(rng, a, confidence).value.0 <= MedianCi(rng, b, confidence).value.0
    ensures MedianCi(rng, a, confidence).value.1 <= MedianCi(rng, b, confidence).value.1
  {
    hide SortedPercentile, Sort, Medians;
    if |a| > 1 {
      var x, y := Medians(rng, a, RESAMPLES, rng.seed).0, Medians(rng, b, RESAMPLES, rng.seed).0;
      var tail := (1.0 - confidence) / 2.0;
      MediansBelow(rng, a, b, RESAMPLES, rng.seed);
      SortBelow(x, y);
      SortedPercentileBelow(Sort(Ascending, x), Sort(Ascending, y), tail);
      SortedPercentileBelow(Sort(Ascending, x), Sort(Ascending, y), 1.0 - tail);
    }
  }

  // ---------- The draws ----------

  /** The random state after k draws of a value in 1..n. */
  function StateAfter<S(!new)>(rng: Rng<S>, n: nat, state: S, k: nat): S {
    if k == 0 then state else rng.uniform(n, StateAfter(rng, n, state, k - 1)).1
  }

  /** The k-th value drawn from a state on. */
  function Draw<S(!new)>(rng: Rng<S>, n: nat, state: S, k: nat): nat {
    rng.uniform(n, StateAfter(rng, n, state, k)).0
  }

  lemma {:induction false} StateAfterSum<S(!new)>(rng: Rng<S>, n: nat, state: S, j: nat, k: nat)
    ensures StateAfter(rng, n, StateAfter(rng, n, state, j), k) == StateAfter(rng, n, state, j + k)
  {
    if k > 0 {
      StateAfterSum(rng, n, state, j, k - 1);
    }
  }

  lemma {:induction false} ResampleDraws<S(!new)>(rng: Rng<S>, values: seq<real>, k: nat, state: S)
    requires Uniform(rng) && values != []
    ensures Resample(rng, values, k, state).1 == StateAfter(rng, |values|, state, k)
    ensures forall i: nat | i < k ::
              Resample(rng, values, k, state).0[i] == values[Draw(rng, |values|, state, i) - 1]
    decreases k
  {
    if k > 0 {
      var n := |values|;
      var next := rng.uniform(n, state).1;
      assert next == StateAfter(rng, n, state, 1) by {
        assert StateAfter(rng, n, state, 0) == state;
      }
      ResampleDraws(rng, values, k - 1, next);
      StateAfterSum(rng, n, state, 1, k - 1);
      forall i: nat | i < k
        ensures Resample(rng, values, k, state).0[i] == values[Draw(rng, n, state, i) - 1]
      {
        if i > 0 {
          StateAfterSum(rng, n, state, 1, i - 1);
        }
      }
    }
  }

  /** The resample, as long as the samples, that starts with the given draw. */
  function Drawn<S(!new)>(rng: Rng<S>, samples: seq<real>, state: S, first: nat): (r: seq<real>)
    requires Uniform(rng) && samples != []
    ensures |r| == |samples|
  {
    seq(|samples|, i requires 0 <= i < |samples| => samples[Draw(rng, |samples|, state, first + i) - 1])
  }

  lemma DrawnIsResample<S(!new)>(rng: Rng<S>, samples: seq<real>, state: S, first: nat)
    requires Uniform(rng) && samples != []
    ensures Drawn(rng, samples, state, first)
         == Resample(rng, samples, |samples|, StateAfter(rng, |samples|, state, first)).0
  {
    hide Resample, StateAfter, Draw, Uniform;
    var n := |samples|;
    var start := StateAfter(rng, n, state, first);
    var resample := Resample(rng, samples, n, start).0;
    ResampleDraws(rng, samples, n, start);
    forall i: nat | i < n ensures Drawn(rng, samples, state, first)[i] == resample[i] {
      DrawSum(rng, n, state, first, i);
    }
  }

  lemma DrawSum<S(!new)>(rng: Rng<S>, n: nat, state: S, first: nat, i: nat)
    ensures Draw(rng, n, StateAfter(rng, n, state, first), i) == Draw(rng, n, state, first + i)
  {
    StateAfterSum(rng, n, state, first, i);
  }

  lemma {:induction false} MediansDraw<S(!new)>(rng: Rng<S>, samples: seq<real>, k: nat, state: S, j: nat)
    requires Uniform(rng) && samples != [] && j < k
    ensures Medians(rng, samples, k, state).0[j] == Median(Drawn(rng, samples, state, j * |samples|)).value
    decreases k
  {
    hide Drawn, Resample, SortedPercentile, StateAfter;
    var n := |samples|;
    DrawnIsResample(rng, samples, state, j * n);
    if j == 0 {
      assert StateAfter(rng, n, state, 0 * n) == state by {
        NoDraws(rng, n, state);
      }
    } else {
      ResampleState(rng, samples, state);
      var next := StateAfter(rng, n, state, n);
      MediansDraw(rng, samples, k - 1, next, j - 1);
      DrawnIsResample(rng, samples, next, (j - 1) * n);
      StateAfterSum(rng, n, state, n, (j - 1) * n);
      assert n + (j - 1) * n == j * n;
    }
  }

  lemma NoDraws<S(!new)>(rng: Rng<S>, n: nat, state: S)
    ensures StateAfter(rng, n, state, 0) == state
  {
  }

  lemma ResampleState<S(!new)>(rng: Rng<S>, samples: seq<real>, state: S)
    requires Uniform(rng) && samples != []
    ensures Resample(rng, samples, |samples|, state).1 == StateAfter(rng, |samples|, state, |samples|)
  {
    ResampleDraws(rng, samples, |samples|, state);
  }

  /** The interval of two or more samples: the percentiles at the two tails of the medians of 1000
      resamples, each drawn with replacement where the one before it stopped. */
  lemma IntervalOfDraws<S(!new)>(rng: Rng<S>, samples: seq<real>, confidence: real, medians: seq<real>)
    requires Uniform(rng) && |samples| > 1 && -1.0 <= confidence <= 1.0 && |medians| == 1000
    requires forall j: nat | j < 1000 :: medians[j] == Median(Drawn(rng, samples, rng.seed, j * |samples|)).value
    ensures MedianCi(rng, samples, confidence)
         == Some((Percentile(medians, (1.0 - confidence) / 2.0).value,
                  Percentile(medians, (1.0 + confidence) / 2.0).value))
  {
    hide Medians, SortedPercentile, Sort, Drawn;
    forall j: nat | j < 1000 ensures medians[j] == Medians(rng, samples, RESAMPLES, rng.seed).0[j] {
      MediansDraw(rng, samples, RESAMPLES, rng.seed, j);
    }
    assert medians == Medians(rng, samples, RESAMPLES, rng.seed).0;
    assert 1.0 - (1.0 - confidence) / 2.0 == (1.0 + confidence) / 2.0;
  }

  // ---------- Paired comparison ----------

  function AtLeastOne(x: real): (r: real)
    ensures r >= 1.0
  {
    if x > 1.0 then x else 1.0
  }

  function PairedDeltas(reference: seq<real>, candidate: seq<real>): (r: seq<real>)
    requires |reference| == |candidate|
    ensures |r| == |reference|
  {
    seq(|reference|, i requires 0 <= i < |reference| => candidate[i] - reference[i])
  }

  function PairedRatios(reference: seq<real>, candidate: seq<real>): (r: seq<real>)
    requires |reference| == |candidate|
    ensures |r| == |reference|
  {
    seq(|reference|, i requires 0 <= i < |reference| => candidate[i] / AtLeastOne(reference[i]))
  }

  function RelativeHalfWidthPct(low: real, high: real, center: real): Option<real> {
    if center == 0.0 then None
    else Some((high - low) / 2.0 / (if center < 0.0 then -center else center) * 100.0)
  }

  datatype Comparison = Comparison(
    delta_median: real, delta_ci: (real, real), ratio_median: real, ratio_ci: (real, real),
    half_width_pct: Option<real>, overhead_pct: real)

  const CONFIDENCE := 0.95

  /** None stands for the exception that lists of different lengths, or empty ones, raise. */
  function Compare<S(!new)>(rng: Rng<S>, reference: seq<real>, candidate: seq<real>): Option<Comparison>
    requires Uniform(rng)
  {
    if |reference| != |candidate| || reference == [] then None
    else
      var deltas, ratios := PairedDeltas(reference, candidate), PairedRatios(reference, candidate);
      var ratio_median, ratio_ci := Median(ratios).value, MedianCi(rng, ratios, CONFIDENCE).value;
      Some(Comparison(
        Median(deltas).value, MedianCi(rng, deltas, CONFIDENCE).value, ratio_median, ratio_ci,
        RelativeHalfWidthPct(ratio_ci.0, ratio_ci.1, ratio_median), (ratio_median - 1.0) * 100.0))
  }

  lemma PairsBelow(reference: seq<real>, a: seq<real>, b: seq<real>)
    requires |reference| == |a| && Below(a, b)
    ensures Below(PairedDeltas(reference, a), PairedDeltas(reference, b))
    ensures Below(PairedRatios(reference, a), PairedRatios(reference, b))
  {
    forall i | 0 <= i < |a| ensures PairedRatios(reference, a)[i] <= PairedRatios(reference, b)[i] {
      DivideOrder(a[i], b[i], AtLeastOne(reference[i]));
    }
  }

  /** Slowing the candidate in any samples lowers no figure of the comparison. */
  lemma SlowerComparesHigher<S(!new)>(rng: Rng<S>, reference: seq<real>, a: seq<real>, b: seq<real>)
    requires Uniform(rng) && reference != [] && |reference| == |a| && Below(a, b)
    ensures var x, y := Compare(rng, reference, a).value, Compare(rng, reference, b).value;
            && x.delta_median <= y.delta_median && x.ratio_median <= y.ratio_median
            && x.delta_ci.0 <= y.delta_ci.0 && x.delta_ci.1 <= y.delta_ci.1
            && x.ratio_ci.0 <= y.ratio_ci.0 && x.ratio_ci.1 <= y.ratio_ci.1
            && x.overhead_pct <= y.overhead_pct
  {
    hide MedianCi, PairedDeltas, PairedRatios, Percentile, RelativeHalfWidthPct;
    PairsBelow(reference, a, b);
    PercentileBelow(PairedDeltas(reference, a), PairedDeltas(reference, b), 0.5);
    PercentileBelow(PairedRatios(reference, a), PairedRatios(reference, b), 0.5);
    IntervalBelow(rng, PairedDeltas(reference, a), PairedDeltas(reference, b), CONFIDENCE);
    IntervalBelow(rng, PairedRatios(reference, a), PairedRatios(reference, b), CONFIDENCE);
  }

  /** Two bounds on the paired ratios bound the reported ratio, its interval and its half-width. */
  lemma ComparisonWithin<S(!new)>(rng: Rng<S>, reference: seq<real>, candidate: seq<real>, low: real, high: real)
    requires Uniform(rng) && reference != [] && |reference| == |candidate|
    requires Within(PairedRatios(reference, candidate), low, high)
    ensures var c := Compare(rng, reference, candidate).value;
            && low <= c.ratio_median <= high
            && low <= c.ratio_ci.0 <= c.ratio_ci.1 <= high
            && (c.half_width_pct.Some? ==> c.half_width_pct.value >= 0.0)
  {
    hide MedianCi, PairedDeltas, PairedRatios, Percentile;
    var ratios := PairedRatios(reference, candidate);
    PercentileWithin(ratios, 0.5, low, high);
    IntervalInside(rng, ratios, CONFIDENCE, low, high);
  }

  /** A candidate that is never faster than its reference, itself at least 1, is reported with a ratio
      of at least 1, an interval above 1 and no negative overhead. */
  lemma NeverFasterReportsAtLeastOne<S(!new)>(rng: Rng<S>, reference: seq<real>, candidate: seq<real>)
    requires Uniform(rng) && reference != [] && Below(reference, candidate)
    requires forall base <- reference :: base >= 1.0
    ensures var c := Compare(rng, reference, candidate).value;
            && c.ratio_median >= 1.0 && 1.0 <= c.ratio_ci.0 <= c.ratio_ci.1
            && c.overhead_pct >= 0.0
            && c.delta_median >= 0.0 && 0.0 <= c.delta_ci.0 <= c.delta_ci.1
            && c.half_width_pct.Some? && c.half_width_pct.value >= 0.0
  {
    var ratios, deltas := PairedRatios(reference, candidate), PairedDeltas(reference, candidate);
    forall i | 0 <= i < |ratios| ensures ratios[i] >= 1.0 && deltas[i] >= 0.0 {
      var base := reference[i];
      assert base in reference && AtLeastOne(base) == base;
      DivideOrder(base, candidate[i], base);
    }
    hide MedianCi, PairedDeltas, PairedRatios, Percentile;
    var high := UpperBound(ratios);
    var most := UpperBound(deltas);
    assert Within(ratios, 1.0, high) && Within(deltas, 0.0, most);
    ComparisonWithin(rng, reference, candidate, 1.0, high);
    PercentileWithin(deltas, 0.5, 0.0, most);
    IntervalInside(rng, deltas, CONFIDENCE, 0.0, most);
  }

  lemma Cancels(q: real, base: real)
    requires base > 0.0
    ensures q * base / base == q
  {
  }

  /** A candidate that takes q times as long as its reference, or as 1 if that is more, in every sample is
      reported with the ratio q, an interval of that one value and an overhead of 100 (q - 1) percent. */
  lemma ConstantRatio<S(!new)>(rng: Rng<S>, reference: seq<real>, candidate: seq<real>, q: real)
    requires Uniform(rng) && reference != [] && |candidate| == |reference|
    requires forall i | 0 <= i < |reference| ::
               candidate[i] == q * if reference[i] < 1.0 then 1.0 else reference[i]
    ensures var c := Compare(rng, reference, candidate).value;
            && c.ratio_median == q && c.ratio_ci == (q, q) && c.overhead_pct == 100.0 * q - 100.0
            && c.half_width_pct == if q == 0.0 then None else Some(0.0)
  {
    hide MedianCi, PairedRatios, Percentile, RelativeHalfWidthPct;
    ConstantPairs(reference, candidate, q);
    ReportsRatio(rng, reference, candidate, q);
  }

  lemma ConstantPairs(reference: seq<real>, candidate: seq<real>, q: real)
    requires |candidate| == |reference|
    requires forall i | 0 <= i < |reference| ::
               candidate[i] == q * if reference[i] < 1.0 then 1.0 else reference[i]
    ensures Within(PairedRatios(reference, candidate), q, q)
  {
    forall i | 0 <= i < |reference| ensures PairedRatios(reference, candidate)[i] == q {
      Cancels(q, AtLeastOne(reference[i]));
    }
  }

  lemma ReportsRatio<S(!new)>(rng: Rng<S>, reference: seq<real>, candidate: seq<real>, q: real)
    requires Uniform(rng) && reference != [] && |candidate| == |reference|
    requires Within(PairedRatios(reference, candidate), q, q)
    ensures var c := Compare(rng, reference, candidate).value;
            && c.ratio_median == q && c.ratio_ci == (q, q) && c.overhead_pct == 100.0 * q - 100.0
            && c.half_width_pct == if q == 0.0 then None else Some(0.0)
  {
    hide MedianCi, PairedDeltas, PairedRatios, Percentile, RelativeHalfWidthPct;
    ComparisonWithin(rng, reference, candidate, q, q);
    NoWidth(q);
  }

  lemma NoWidth(q: real)
    ensures RelativeHalfWidthPct(q, q, q) == if q == 0.0 then None else Some(0.0)
  {
    if q != 0.0 {
      DivideMultiply(0.0, if q < 0.0 then -q else q);
    }
  }

  /** A candidate that takes d more than its reference in every sample is reported with the difference d. */
  lemma ConstantDelta<S(!new)>(rng: Rng<S>, reference: seq<real>, candidate: seq<real>, d: real)
    requires Uniform(rng) && reference != [] && |candidate| == |reference|
    requires forall i | 0 <= i < |reference| :: candidate[i] == reference[i] + d
    ensures var c := Compare(rng, reference, candidate).value;
            c.delta_median == d && c.delta_ci == (d, d)
  {
    var deltas := PairedDeltas(reference, candidate);
    forall i | 0 <= i < |deltas| ensures deltas[i] == d {
    }
    hide MedianCi, PairedDeltas, PairedRatios, Percentile, RelativeHalfWidthPct;
    assert Within(deltas, d, d);
    PercentileWithin(deltas, 0.5, d, d);
    IntervalInside(rng, deltas, CONFIDENCE, d, d);
  }

  /** What is reported, from the lists of the paired differences and ratios: their medians and 95 percent
      intervals; the half-width is the percentage of the median ratio that half the interval makes. */
  lemma ComparesPairwise<S(!new)>(
    rng: Rng<S>, reference: seq<real>, candidate: seq<real>, deltas: seq<real>, ratios: seq<real>)
    requires Uniform(rng) && reference != [] && |reference| == |candidate| == |deltas| == |ratios|
    requires forall i | 0 <= i < |reference| ::
               && deltas[i] == candidate[i] - reference[i]
               && (reference[i] >= 1.0 ==> ratios[i] * reference[i] == candidate[i])
               && (reference[i] < 1.0 ==> ratios[i] == candidate[i])
    ensures var c := Compare(rng, reference, candidate).value;
            && c.delta_median == Median(deltas).value && c.ratio_median == Median(ratios).value
            && c.delta_ci == MedianCi(rng, deltas, 0.95).value
            && c.ratio_ci == MedianCi(rng, ratios, 0.95).value
            && (c.half_width_pct == None <==> c.ratio_median == 0.0)
            && (c.ratio_median > 0.0 ==> c.half_width_pct.value * c.ratio_median
                                         == 50.0 * (c.ratio_ci.1 - c.ratio_ci.0))
            && (c.ratio_median < 0.0 ==> c.half_width_pct.value * c.ratio_median
                                         == 50.0 * (c.ratio_ci.0 - c.ratio_ci.1))
            && c.overhead_pct == 100.0 * c.ratio_median - 100.0
  {
    hide MedianCi, PairedDeltas, PairedRatios, Percentile, RelativeHalfWidthPct;
    PairsAre(reference, candidate, deltas, ratios);
    var c := Compare(rng, reference, candidate).value;
    HalfWidth(c.ratio_ci.0, c.ratio_ci.1, c.ratio_median);
  }

  lemma PairsAre(reference: seq<real>, candidate: seq<real>, deltas: seq<real>, ratios: seq<real>)
    requires |reference| == |candidate| == |deltas| == |ratios|
    requires forall i | 0 <= i < |reference| ::
               && deltas[i] == candidate[i] - reference[i]
               && (reference[i] >= 1.0 ==> ratios[i] * reference[i] == candidate[i])
               && (reference[i] < 1.0 ==> ratios[i] == candidate[i])
    ensures deltas == PairedDeltas(reference, candidate) && ratios == PairedRatios(reference, candidate)
  {
    forall i | 0 <= i < |reference|
      ensures deltas[i] == PairedDeltas(reference, candidate)[i]
      ensures ratios[i] == PairedRatios(reference, candidate)[i]
    {
      Cancels(ratios[i], AtLeastOne(reference[i]));
    }
  }

  lemma HalfWidth(low: real, high: real, center: real)
    ensures RelativeHalfWidthPct(low, high, center) == None <==> center == 0.0
    ensures center > 0.0 ==> RelativeHalfWidthPct(low, high, center).value * center == 50.0 * (high - low)
    ensures center < 0.0 ==> RelativeHalfWidthPct(low, high, center).value * center == 50.0 * (low - high)
  {
    if center != 0.0 {
      var size := if center < 0.0 then -center else center;
      var part := (high - low) / 2.0 / size;
      DivideMultiply((high - low) / 2.0, size);
      assert part * 100.0 * size == 100.0 * (part * size);
    }
  }

  function UpperBound(xs: seq<real>): (m: real)
    ensures forall x <- xs :: x <= m
  {
    if xs == [] then 0.0
    else
      assert xs == [xs[0]] + xs[1..];
      var m := UpperBound(xs[1..]);
      if xs[0] > m then xs[0] else m
  }
}
