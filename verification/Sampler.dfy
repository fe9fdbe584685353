/** The rotating and reversing order of benchmark variants, and the samples a run collects. */
module Sampler {
  import opened Arithmetic

  function Reversed<T>(s: seq<T>): (r: seq<T>)
    ensures |r| == |s|
  {
    if s == [] then [] else Reversed(s[1..]) + [s[0]]
  }

  lemma {:induction false} ReversedAt<T>(s: seq<T>, i: nat)
    requires i < |s|
    ensures Reversed(s)[i] == s[|s| - 1 - i]
  {
    if i < |s| - 1 {
      ReversedAt(s[1..], i);
    }
  }

  function Rotated<V>(variants: seq<V>, shift: nat): (r: seq<V>)
    requires shift <= |variants|
    ensures |r| == |variants|
  {
    variants[shift..] + variants[..shift]
  }

  /** `rem(absolute, count)` */
  function Shift(absolute: nat, count: nat): (shift: nat)
    requires count > 0
    ensures shift < count
  {
    absolute % count
  }

  /** Whether an absolute index falls in a reversed cycle. */
  predicate Reverses(absolute: nat, count: nat)
    requires count > 0
  {
    (absolute / count) % 2 == 1
  }

  /** The order in which the variants run at an absolute sample index. */
  function Order<V>(variants: seq<V>, absolute: nat): (r: seq<V>)
    requires variants != []
    ensures |r| == |variants|
  {
    Arranged(variants, Shift(absolute, |variants|), Reverses(absolute, |variants|))
  }

  function Arranged<V>(variants: seq<V>, shift: nat, reversed: bool): (r: seq<V>)
    requires shift <= |variants|
    ensures |r| == |variants|
  {
    if reversed then Reversed(Rotated(variants, shift)) else Rotated(variants, shift)
  }

  ghost predicate Distinct<V>(variants: seq<V>) {
    forall i, j | 0 <= i < j < |variants| :: variants[i] != variants[j]
  }

  // ---------- One sample, and one cycle ----------

  function Wrap(i: nat, n: nat): nat
    requires n > 0
  {
    if i < n then i else i - n
  }

  lemma RotatedAt<V>(variants: seq<V>, shift: nat, p: nat)
    requires shift < |variants| && p < |variants|
    ensures Wrap(shift + p, |variants|) < |variants|
    ensures Rotated(variants, shift)[p] == variants[Wrap(shift + p, |variants|)]
  {
  }

  /** How far the entry at position p is rotated beyond the shift: backwards in a reversed cycle. */
  function Offset(n: nat, reversed: bool, p: nat): (q: nat)
    requires p < n
    ensures q < n
  {
    if reversed then n - 1 - p else p
  }

  lemma WrappedOrderAt<V>(variants: seq<V>, absolute: nat, p: nat)
    requires p < |variants|
    ensures var n := |variants|;
            var i := Wrap(Shift(absolute, n) + Offset(n, Reverses(absolute, n), p), n);
            i < n && Order(variants, absolute)[p] == variants[i]
  {
    hide Shift, Reverses, Rotated, Wrap;
    var n := |variants|;
    ReversedAt(Rotated(variants, Shift(absolute, n)), p);
    RotatedAt(variants, Shift(absolute, n), Offset(n, Reverses(absolute, n), p));
  }

  lemma WrapIsRemainder(absolute: nat, n: nat, q: nat)
    requires q < n
    ensures Wrap(Shift(absolute, n) + q, n) == (absolute + q) % n
  {
    var shift, cycle := absolute % n, absolute / n;
    if shift + q < n {
      UniqueRemainder(absolute + q, n, cycle, shift + q);
    } else {
      assert n * (cycle + 1) == n * cycle + n;
      UniqueRemainder(absolute + q, n, cycle + 1, shift + q - n);
    }
  }

  /** Which variant stands at a position: counted on from the absolute index, and back from the last
      position in every second cycle. */
  lemma OrderAt<V>(variants: seq<V>, absolute: nat, p: nat)
    requires p < |variants|
    ensures var n := |variants|;
            && (absolute / n % 2 == 0 ==> Order(variants, absolute)[p] == variants[(absolute + p) % n])
            && (absolute / n % 2 != 0 ==> Order(variants, absolute)[p] == variants[(absolute + n - 1 - p) % n])
  {
    hide Order, Wrap, Shift;
    var n := |variants|;
    WrappedOrderAt(variants, absolute, p);
    WrapIsRemainder(absolute, n, p);
    WrapIsRemainder(absolute, n, n - 1 - p);
  }

  lemma {:induction false} ReversedElements<T>(s: seq<T>)
    ensures multiset(Reversed(s)) == multiset(s)
  {
    if s != [] {
      assert s == [s[0]] + s[1..];
      ReversedElements(s[1..]);
    }
  }

  lemma RotatedElements<V>(variants: seq<V>, shift: nat)
    requires shift <= |variants|
    ensures multiset(Rotated(variants, shift)) == multiset(variants)
  {
    assert variants == variants[..shift] + variants[shift..];
  }

  /** Every sample runs every variant once. */
  lemma OrderPermutes<V>(variants: seq<V>, absolute: nat)
    requires variants != []
    ensures multiset(Order(variants, absolute)) == multiset(variants)
  {
    hide Shift, Reverses, Rotated;
    var shift := Shift(absolute, |variants|);
    RotatedElements(variants, shift);
    ReversedElements(Rotated(variants, shift));
  }

  lemma InCycle(cycle: nat, n: nat, absolute: nat)
    requires cycle * n <= absolute < cycle * n + n
    ensures Shift(absolute, n) == absolute - cycle * n
    ensures Reverses(absolute, n) == (cycle % 2 == 1)
  {
    UniqueRemainder(absolute, n, cycle, absolute - cycle * n);
  }

  lemma NextCycle(absolute: nat, n: nat)
    requires n > 0
    ensures Shift(absolute + n, n) == Shift(absolute, n)
    ensures Reverses(absolute + n, n) == !Reverses(absolute, n)
  {
    var q, r := absolute / n, absolute % n;
    assert absolute == n * q + r;
    assert absolute + n == n * (q + 1) + r;
    UniqueRemainder(absolute + n, n, q + 1, r);
  }

  lemma ReversedTwice<T>(s: seq<T>)
    ensures Reversed(Reversed(s)) == s
  {
    var r := Reversed(Reversed(s));
    forall i | 0 <= i < |s| ensures r[i] == s[i] {
      ReversedAt(Reversed(s), i);
      ReversedAt(s, |s| - 1 - i);
    }
  }

  /** The next cycle runs each sample backwards. */
  lemma NextCycleReverses<V>(variants: seq<V>, absolute: nat)
    requires variants != []
    ensures Order(variants, absolute + |variants|) == Reversed(Order(variants, absolute))
  {
    hide Shift, Reverses, Arranged;
    NextCycle(absolute, |variants|);
    ArrangedBackwards(variants, Shift(absolute, |variants|), Reverses(absolute, |variants|));
  }

  lemma ArrangedBackwards<V>(variants: seq<V>, shift: nat, reversed: bool)
    requires shift <= |variants|
    ensures Arranged(variants, shift, !reversed) == Reversed(Arranged(variants, shift, reversed))
  {
    ReversedTwice(Rotated(variants, shift));
  }

  /** The order repeats after two cycles. */
  lemma TwoCyclesRepeat<V>(variants: seq<V>, absolute: nat)
    requires variants != []
    ensures Order(variants, absolute + 2 * |variants|) == Order(variants, absolute)
  {
    hide Order, Reversed;
    var n := |variants|;
    NextCycleReverses(variants, absolute);
    NextCycleReverses(variants, absolute + n);
    ReversedTwice(Order(variants, absolute));
    assert absolute + n + n == absolute + 2 * n;
  }

  ghost predicate Takes<V>(variants: seq<V>, absolute: nat, p: nat, v: V)
    requires p < |variants|
  {
    Order(variants, absolute)[p] == v
  }

  /** An aligned cycle is a Latin square: beside each of its rows being a permutation, exactly one of
      them has a given variant at a given position. */
  lemma LatinSquare<V>(variants: seq<V>, cycle: nat, p: nat, v: V) returns (row: nat)
    requires Distinct(variants) && p < |variants| && v in variants
    ensures var start := cycle * |variants|;
            && start <= row < start + |variants|
            && forall a: nat | start <= a < start + |variants| :: Takes(variants, a, p, v) <==> a == row
  {
    hide Takes;
    row := RowInCycle(variants, cycle, cycle * |variants|, p, v);
  }

  lemma RowInCycle<V>(variants: seq<V>, cycle: nat, start: nat, p: nat, v: V) returns (row: nat)
    requires Distinct(variants) && p < |variants| && v in variants && start == cycle * |variants|
    ensures start <= row < start + |variants|
    ensures forall a: nat | start <= a < start + |variants| :: Takes(variants, a, p, v) <==> a == row
  {
    hide Takes, Wrap;
    var n := |variants|;
    var i :| 0 <= i < n && variants[i] == v;
    var q := Offset(n, cycle % 2 == 1, p);
    var row' := start + (if i >= q then i - q else i - q + n);
    row := row';
    forall a: nat | start <= a < start + n ensures Takes(variants, a, p, v) <==> a == row' {
      StandsAt(variants, cycle, p, a, i);
      WrapsTo(a - start, q, i, n);
    }
  }

  /** Within a cycle a position is rotated to a variant. */
  lemma StandsAt<V>(variants: seq<V>, cycle: nat, p: nat, a: nat, i: nat)
    requires Distinct(variants) && p < |variants| && i < |variants|
    requires cycle * |variants| <= a < cycle * |variants| + |variants|
    ensures var n := |variants|;
            Takes(variants, a, p, variants[i]) <==> Wrap(a - cycle * n + Offset(n, cycle % 2 == 1, p), n) == i
  {
    hide Order, Shift, Reverses;
    var n := |variants|;
    InCycle(cycle, n, a);
    WrappedOrderAt(variants, a, p);
    var j := Wrap(a - cycle * n + Offset(n, cycle % 2 == 1, p), n);
    assert variants[j] == variants[i] <==> j == i;
  }

  lemma WrapsTo(shift: nat, q: nat, i: nat, n: nat)
    requires shift < n && q < n && i < n
    ensures Wrap(shift + q, n) == i <==> shift == if i >= q then i - q else i - q + n
  {
  }

  // ---------- Windows of samples ----------

  /** How many of the `len` indices from `start` satisfy p. */
  ghost function Tally(p: nat -> bool, start: nat, len: nat): (c: nat)
    ensures c <= len
    decreases len
  {
    if len == 0 then 0 else Tally(p, start, len - 1) + (if p(start + len - 1) then 1 else 0)
  }

  lemma {:induction false} TallySplit(p: nat -> bool, start: nat, a: nat, b: nat)
    ensures Tally(p, start, a + b) == Tally(p, start, a) + Tally(p, start + a, b)
    decreases b
  {
    if b > 0 {
      TallySplit(p, start, a, b - 1);
    }
  }

  /** Every window as long as the period counts the same. */
  lemma {:induction false} TallyPeriodic(p: nat -> bool, start: nat, period: nat)
    requires period > 0 && forall a: nat :: p(a + period) == p(a)
    ensures Tally(p, start, period) == Tally(p, 0, period)
    decreases start
  {
    if start > 0 {
      var from := start - 1;
      TallyPeriodic(p, from, period);
      TallySplit(p, from, 1, period - 1);
      assert Tally(p, from, 1) == Tally(p, from, 0) + (if p(from) then 1 else 0);
      assert p(from + period) == p(from);
      assert start + period - 1 == from + period;
    }
  }

  lemma {:induction false} TallyOnce(p: nat -> bool, start: nat, len: nat, row: nat)
    requires forall a: nat | start <= a < start + len :: p(a) <==> a == row
    requires start <= row
    ensures Tally(p, start, len) == if row < start + len then 1 else 0
    decreases len
  {
    if len > 0 {
      TallyOnce(p, start, len - 1, row);
      assert p(start + len - 1) <==> start + len - 1 == row;
    }
  }

  /** A window whose second half negates its first holds in half of its indices. */
  lemma {:induction false} TallyNegated(p: nat -> bool, start: nat, n: nat, len: nat)
    requires forall a: nat :: p(a + n) == !p(a)
    ensures Tally(p, start, len) + Tally(p, start + n, len) == len
    decreases len
  {
    if len > 0 {
      TallyNegated(p, start, n, len - 1);
      assert p(start + len - 1 + n) == !p(start + len - 1);
    }
  }

  ghost function TakesIt<V>(variants: seq<V>, p: nat, v: V): nat -> bool
    requires p < |variants|
  {
    (a: nat) => Takes(variants, a, p, v)
  }

  /** How many of the `len` samples from `start` run v at position p. */
  ghost function PositionTally<V>(variants: seq<V>, p: nat, v: V, start: nat, len: nat): nat
    requires p < |variants|
  {
    Tally(TakesIt(variants, p, v), start, len)
  }

  lemma TakesRepeats<V>(variants: seq<V>, p: nat, v: V)
    requires p < |variants|
    ensures forall a: nat :: TakesIt(variants, p, v)(a + 2 * |variants|) == TakesIt(variants, p, v)(a)
  {
    hide Order;
    forall a: nat ensures TakesIt(variants, p, v)(a + 2 * |variants|) == TakesIt(variants, p, v)(a) {
      TwoCyclesRepeat(variants, a);
    }
  }

  lemma CycleTally<V>(variants: seq<V>, cycle: nat, p: nat, v: V)
    requires Distinct(variants) && p < |variants| && v in variants
    ensures Tally(TakesIt(variants, p, v), cycle * |variants|, |variants|) == 1
  {
    hide Takes;
    var row := LatinSquare(variants, cycle, p, v);
    TallyOnce(TakesIt(variants, p, v), cycle * |variants|, |variants|, row);
  }

  /** In any 2n consecutive samples each variant takes each position exactly twice. */
  lemma PositionsBalanced<V>(variants: seq<V>, p: nat, v: V, start: nat)
    requires Distinct(variants) && p < |variants| && v in variants
    ensures PositionTally(variants, p, v, start, 2 * |variants|) == 2
  {
    hide TakesIt;
    var n := |variants|;
    TakesRepeats(variants, p, v);
    TallyPeriodic(TakesIt(variants, p, v), start, 2 * n);
    CycleTally(variants, 0, p, v);
    CycleTally(variants, 1, p, v);
    TallySplit(TakesIt(variants, p, v), 0, n, n);
  }

  /** u runs before v in a sample. */
  ghost predicate Precedes<V>(order: seq<V>, u: V, v: V) {
    exists i, j | 0 <= i < j < |order| :: order[i] == u && order[j] == v
  }

  lemma DistinctOrder<V>(variants: seq<V>, absolute: nat)
    requires Distinct(variants) && variants != []
    ensures Distinct(Order(variants, absolute))
  {
    hide Order, Shift, Reverses;
    var n := |variants|;
    var order := Order(variants, absolute);
    forall i, j | 0 <= i < j < n ensures order[i] != order[j] {
      WrappedOrderAt(variants, absolute, i);
      WrappedOrderAt(variants, absolute, j);
      assert Wrap(Shift(absolute, n) + Offset(n, Reverses(absolute, n), i), n)
          != Wrap(Shift(absolute, n) + Offset(n, Reverses(absolute, n), j), n);
    }
  }

  /** Reversing a sample swaps who comes first. */
  lemma ReversalSwaps<V>(order: seq<V>, u: V, v: V)
    requires Distinct(order) && u != v && u in order && v in order
    ensures Precedes(Reversed(order), u, v) <==> !Precedes(order, u, v)
  {
    var i :| 0 <= i < |order| && order[i] == u;
    var j :| 0 <= j < |order| && order[j] == v;
    var back := Reversed(order);
    var n := |order|;
    ReversedAt(order, n - 1 - i);
    ReversedAt(order, n - 1 - j);
    assert back[n - 1 - i] == u && back[n - 1 - j] == v;
    if Precedes(back, u, v) {
      var k, l :| 0 <= k < l < n && back[k] == u && back[l] == v;
      ReversedAt(order, k);
      ReversedAt(order, l);
      assert order[n - 1 - k] == u && order[n - 1 - l] == v;
      assert i == n - 1 - k && j == n - 1 - l;
    }
  }

  ghost function PrecedesIn<V>(variants: seq<V>, u: V, v: V): nat -> bool
    requires variants != []
  {
    (a: nat) => Precedes(Order(variants, a), u, v)
  }

  /** How many of the `len` samples from `start` run u before v. */
  ghost function PrecedenceTally<V>(variants: seq<V>, u: V, v: V, start: nat, len: nat): nat
    requires variants != []
  {
    Tally(PrecedesIn(variants, u, v), start, len)
  }

  lemma PrecedesAlternates<V>(variants: seq<V>, u: V, v: V, a: nat)
    requires Distinct(variants) && u != v && u in variants && v in variants
    ensures PrecedesIn(variants, u, v)(a + |variants|) == !PrecedesIn(variants, u, v)(a)
  {
    hide Order, Precedes;
    NextCycleReverses(variants, a);
    OrderPermutes(variants, a);
    assert u in multiset(variants) && v in multiset(variants);
    DistinctOrder(variants, a);
    ReversalSwaps(Order(variants, a), u, v);
  }

  /** In any 2n consecutive samples each variant precedes each other one exactly n times. */
  lemma PrecedenceBalanced<V>(variants: seq<V>, u: V, v: V, start: nat)
    requires Distinct(variants) && u != v && u in variants && v in variants
    ensures PrecedenceTally(variants, u, v, start, 2 * |variants|) == |variants|
  {
    hide PrecedesIn;
    var n := |variants|;
    forall a: nat ensures PrecedesIn(variants, u, v)(a + n) == !PrecedesIn(variants, u, v)(a) {
      PrecedesAlternates(variants, u, v, a);
    }
    TallyNegated(PrecedesIn(variants, u, v), start, n, n);
    TallySplit(PrecedesIn(variants, u, v), start, n, n);
  }

  // ---------- Whole runs ----------

  datatype Stop = Continue | MaxIterations | TimeBudget | Converged

  /** The options, the clock and the convergence test: the elapsed time and the verdict when `count`
      samples have been taken. */
  datatype Options = Options(warmup: nat, min_iterations: nat, max_iterations: nat, budget_ms: int,
                             elapsed: nat -> int, converged: nat -> bool)

  const CHECK_EVERY := 10

  function StopReason(o: Options, count: nat): Stop {
    if count >= o.max_iterations then MaxIterations
    else if count > 0 && o.elapsed(count) >= o.budget_ms then TimeBudget
    else if count >= o.min_iterations && count % CHECK_EVERY == 0 && o.converged(count) then Converged
    else Continue
  }

  /** Collects samples, newest first, until there is a reason to stop; a sample is represented by the
      order its variants ran in. */
  function Collect<V>(o: Options, variants: seq<V>, samples: seq<seq<V>>): (r: (seq<seq<V>>, Stop))
    requires variants != []
    decreases o.max_iterations - |samples|
  {
    var reason := StopReason(o, |samples|);
    if reason.Continue? then Collect(o, variants, [Order(variants, o.warmup + |samples|)] + samples)
    else (Reversed(samples), reason)
  }

  ghost predicate Collected<V>(o: Options, variants: seq<V>, samples: seq<seq<V>>)
    requires variants != []
  {
    && (forall i: nat | i < |samples| :: samples[i] == Order(variants, o.warmup + i))
    && (forall i: nat | i < |samples| :: StopReason(o, i).Continue?)
  }

  lemma {:induction false} CollectFrom<V>(o: Options, variants: seq<V>, samples: seq<seq<V>>)
    requires variants != [] && Collected(o, variants, Reversed(samples))
    ensures var (taken, reason) := Collect(o, variants, samples);
            Collected(o, variants, taken) && reason == StopReason(o, |taken|) && !reason.Continue?
            && |taken| >= |samples|
    decreases o.max_iterations - |samples|
  {
    hide Order;
    if StopReason(o, |samples|).Continue? {
      var next := [Order(variants, o.warmup + |samples|)] + samples;
      assert Reversed(next) == Reversed(samples) + [Order(variants, o.warmup + |samples|)];
      CollectFrom(o, variants, next);
    }
  }

  lemma CollectedInAll<V>(o: Options, variants: seq<V>)
    requires variants != []
    ensures Collected(o, variants, Collect(o, variants, []).0)
  {
    CollectFrom(o, variants, []);
  }

  /** A run that has taken k samples stops if the limit is reached, else if there is a sample and the
      budget is used up, else if the minimum is reached, k is a multiple of ten and the samples have
      converged. */
  ghost predicate StopsWith(o: Options, k: nat, reason: Stop) {
    var spent := k > 0 && o.elapsed(k) >= o.budget_ms;
    && (reason.MaxIterations? <==> k >= o.max_iterations)
    && (reason.TimeBudget? <==> k < o.max_iterations && spent)
    && (reason.Converged? <==>
          k < o.max_iterations && !spent && k >= o.min_iterations && k % 10 == 0 && o.converged(k))
  }

  /** A run takes samples up to the first count with a reason to stop, which is the reason it gives; its
      i-th sample ran the variants in the order of the absolute index warmup + i. */
  lemma RunStopsAtFirstReason<V>(o: Options, variants: seq<V>)
    requires variants != []
    ensures var (taken, reason) := Collect(o, variants, []);
            && !reason.Continue? && StopsWith(o, |taken|, reason)
            && |taken| <= o.max_iterations
            && forall i: nat | i < |taken| ::
                 StopsWith(o, i, Continue) && taken[i] == Order(variants, o.warmup + i)
  {
    hide Order;
    CollectFrom(o, variants, []);
    var taken := Collect(o, variants, []).0;
    assert |taken| == 0 || StopReason(o, |taken| - 1).Continue?;
    forall i: nat | i < |taken| ensures StopsWith(o, i, Continue) && taken[i] == Order(variants, o.warmup + i) {
      assert StopReason(o, i).Continue?;
    }
  }

  lemma {:induction false} TallyMonotone(p: nat -> bool, start: nat, len: nat, more: nat)
    requires len <= more
    ensures Tally(p, start, len) <= Tally(p, start, more)
  {
    TallySplit(p, start, len, more - len);
  }

  /** The length of `periods` periods. */
  function Span(periods: nat, period: nat): nat {
    periods * period
  }

  function CompletedPeriods(total: nat, period: nat): nat
    requires period > 0
  {
    total / period
  }

  lemma SpanNext(periods: nat, period: nat)
    ensures Span(0, period) == 0 && Span(periods + 1, period) == Span(periods, period) + period
  {
  }

  lemma Bracket(total: nat, period: nat)
    requires period > 0
    ensures Span(CompletedPeriods(total, period), period) <= total
    ensures total < Span(CompletedPeriods(total, period) + 1, period)
  {
    assert total == period * (total / period) + total % period;
    SpanNext(total / period, period);
  }

  lemma {:induction false} PositionsOverPeriods<V>(variants: seq<V>, p: nat, v: V, start: nat, periods: nat)
    requires Distinct(variants) && p < |variants| && v in variants
    ensures PositionTally(variants, p, v, start, Span(periods, 2 * |variants|)) == 2 * periods
    decreases periods
  {
    hide TakesIt, Span;
    var n := |variants|;
    SpanNext(if periods > 0 then periods - 1 else 0, 2 * n);
    if periods > 0 {
      PositionsOverPeriods(variants, p, v, start, periods - 1);
      PositionsBalanced(variants, p, v, start + Span(periods - 1, 2 * n));
      TallySplit(TakesIt(variants, p, v), start, Span(periods - 1, 2 * n), 2 * n);
    }
  }

  /** A count that is two for each completed period of 2n samples, and at most two for the rest. */
  predicate Balanced(count: nat, total: nat, n: nat)
    requires n > 0
  {
    var periods := CompletedPeriods(total, 2 * n);
    2 * periods <= count <= 2 * periods + 2 && (total == Span(periods, 2 * n) ==> count == 2 * periods)
  }

  lemma TallyBracket<V>(variants: seq<V>, p: nat, v: V, start: nat, total: nat)
    requires Distinct(variants) && p < |variants| && v in variants
    ensures Balanced(PositionTally(variants, p, v, start, total), total, |variants|)
  {
    hide TakesIt, Span, CompletedPeriods;
    var n := |variants|;
    var periods := CompletedPeriods(total, 2 * n);
    Bracket(total, 2 * n);
    PositionsOverPeriods(variants, p, v, start, periods);
    PositionsOverPeriods(variants, p, v, start, periods + 1);
    TallyMonotone(TakesIt(variants, p, v), start, Span(periods, 2 * n), total);
    TallyMonotone(TakesIt(variants, p, v), start, total, Span(periods + 1, 2 * n));
  }

  /** Over the measured samples of any run, however it stops, each variant takes each position twice
      per completed period of 2n samples, and at most twice in the rest. */
  lemma RunBalanced<V>(o: Options, variants: seq<V>, p: nat, v: V)
    requires Distinct(variants) && p < |variants| && v in variants
    ensures var taken := Collect(o, variants, []).0;
            Balanced(Occurrences(taken, p, v), |taken|, |variants|)
  {
    hide PositionTally, Collect, Occurrences, Collected, StopReason, Balanced;
    CollectedInAll(o, variants);
    var taken := Collect(o, variants, []).0;
    OccurrencesAreTally(o, variants, taken, p, v);
    TallyBracket(variants, p, v, o.warmup, |taken|);
  }

  /** How many samples ran v at position p. */
  ghost function Occurrences<V>(samples: seq<seq<V>>, p: nat, v: V): nat {
    if samples == [] then 0
    else
      var last := samples[|samples| - 1];
      Occurrences(samples[..|samples| - 1], p, v) + (if p < |last| && last[p] == v then 1 else 0)
  }

  lemma {:induction false} OccurrencesAreTally<V>(o: Options, variants: seq<V>, samples: seq<seq<V>>, p: nat, v: V)
    requires variants != [] && Collected(o, variants, samples) && p < |variants|
    ensures Occurrences(samples, p, v) == PositionTally(variants, p, v, o.warmup, |samples|)
    decreases |samples|
  {
    hide Order;
    if samples != [] {
      var n := |samples| - 1;
      OccurrencesAreTally(o, variants, samples[..n], p, v);
      assert samples[n] == Order(variants, o.warmup + n);
    }
  }
}
