/** The arithmetic of the SQLite driver's busy handler: how long it sleeps, and when its 32-bit
    computation overflows. */
module BusyHandler {
  import opened Arithmetic

  const DELAYS: seq<int> := [1, 2, 5, 10, 15, 20, 25, 25, 25, 50, 50]
  const MAX_DELAY: int := 50
  const I32_MAX: int := 0x7FFF_FFFF

  function Sum(xs: seq<int>): int {
    if xs == [] then 0 else xs[0] + Sum(xs[1..])
  }

  function Min(a: int, b: int): int {
    if a < b then a else b
  }

  /** The time slept before call number `count`, as the handler recomputes it. */
  function Waited(count: nat): int {
    Sum(DELAYS[..Min(count, |DELAYS|)])
    + (if count > |DELAYS| then count - |DELAYS| else 0) * MAX_DELAY
  }

  /** The scheduled delay of a call. */
  function Scheduled(count: nat): (d: int)
    ensures 1 <= d <= MAX_DELAY
  {
    if count < |DELAYS| then DELAYS[count] else MAX_DELAY
  }

  /** What one call sleeps when it reads `timeout`, 0 where it gives up. */
  function Delay(count: nat, timeout: int): (d: int)
    ensures d >= 0
    ensures d == 0 <==> Waited(count) >= timeout
  {
    if Waited(count) >= timeout then 0 else Min(Scheduled(count), timeout - Waited(count))
  }

  /** The table of elapsed times that the recomputed sums walk through. */
  const ELAPSED: seq<int> := [0, 1, 3, 8, 18, 33, 53, 78, 103, 128, 178, 228]

  lemma {:induction false} SumSnoc(xs: seq<int>, x: int)
    ensures Sum(xs + [x]) == Sum(xs) + x
  {
    if xs == [] {
      assert Sum([x]) == x + Sum([]);
    } else {
      assert (xs + [x])[1..] == xs[1..] + [x];
      SumSnoc(xs[1..], x);
    }
  }

  /** Each call adds its scheduled delay to the elapsed time. */
  lemma WaitedNext(count: nat)
    ensures Waited(count + 1) == Waited(count) + Scheduled(count)
  {
    if count < |DELAYS| {
      assert DELAYS[..count + 1] == DELAYS[..count] + [DELAYS[count]];
      SumSnoc(DELAYS[..count], DELAYS[count]);
    }
  }

  lemma {:induction false} WaitedElapsed(count: nat)
    ensures Waited(count) == if count <= 11 then ELAPSED[count] else 228 + (count - 11) * MAX_DELAY
  {
    if count > 0 {
      WaitedNext(count - 1);
      WaitedElapsed(count - 1);
    }
  }

  lemma {:induction false} WaitedGrows(m: nat, n: nat)
    requires m <= n
    ensures Waited(m) + (n - m) <= Waited(n)
    decreases n - m
  {
    if m < n {
      WaitedNext(m);
      WaitedGrows(m + 1, n);
    }
  }

  // ---------- Episodes ----------

  /** An uncancelled busy episode: `timeouts(i)` is what call i reads.  The engine makes call n only
      if calls 0..n-1 all slept. */
  ghost predicate Reaches(timeouts: nat -> int, n: nat) {
    forall i: nat | i < n :: Waited(i) < timeouts(i)
  }

  /** Total sleep of the first n calls. */
  function Slept(timeouts: nat -> int, n: nat): int {
    if n == 0 then 0 else Slept(timeouts, n - 1) + Delay(n - 1, timeouts(n - 1))
  }

  lemma {:induction false} SleptAtMostWaited(timeouts: nat -> int, n: nat)
    ensures 0 <= Slept(timeouts, n) <= Waited(n)
  {
    if n == 0 {
      WaitedElapsed(0);
    } else {
      SleptAtMostWaited(timeouts, n - 1);
      WaitedNext(n - 1);
    }
  }

  /** Whatever the timeout is set to in between, after each call that sleeps the total sleep is at
      most the timeout that call read. */
  lemma SleptWithinTimeout(timeouts: nat -> int, n: nat)
    requires Reaches(timeouts, n + 1)
    ensures 0 < Delay(n, timeouts(n))
    ensures Slept(timeouts, n + 1) <= timeouts(n)
  {
    assert Waited(n) < timeouts(n);
    SleptAtMostWaited(timeouts, n);
  }

  /** With a constant timeout, an episode that is still going has slept every scheduled delay. */
  lemma {:induction false} SleptOnSchedule(timeout: int, n: nat)
    requires Reaches(_ => timeout, n)
    ensures Slept(_ => timeout, n) == if n == 0 then 0 else Min(Waited(n), timeout)
  {
    var ts: nat -> int := _ => timeout;
    if n > 0 {
      assert Reaches(ts, n - 1);
      SleptOnSchedule(timeout, n - 1);
      WaitedNext(n - 1);
      assert Waited(n - 1) < ts(n - 1);
      WaitedElapsed(0);
    }
  }

  /** The number of calls that sleep under a constant timeout. */
  function Calls(timeout: int, from: nat): (n: nat)
    ensures n >= from && Waited(n) >= timeout
    ensures forall i | from <= i < n :: Waited(i) < timeout
    decreases timeout - Waited(from)
  {
    if Waited(from) >= timeout then from
    else
      WaitedNext(from);
      Calls(timeout, from + 1)
  }

  /** An uncancelled episode with a constant timeout T sleeps exactly T milliseconds in all (nothing
      when T <= 0), in finitely many calls, and then gives up. */
  lemma ConstantTimeoutSleepsExactly(timeout: int)
    ensures var n := Calls(timeout, 0);
            && Reaches(_ => timeout, n) && !Reaches(_ => timeout, n + 1)
            && Delay(n, timeout) == 0
            && Slept(_ => timeout, n) == (if timeout > 0 then timeout else 0)
            && n <= (if timeout > 0 then timeout else 0)
  {
    var n := Calls(timeout, 0);
    var ts: nat -> int := _ => timeout;
    WaitedElapsed(0);
    assert Reaches(ts, n);
    assert Waited(n) >= ts(n);
    SleptOnSchedule(timeout, n);
    if n > 0 {
      WaitedGrows(0, n - 1);
    }
  }

  // ---------- 32-bit overflow ----------

  /** The elapsed time of a call does not fit a 32-bit integer. */
  predicate Overflows(count: nat) {
    Waited(count) > I32_MAX
  }

  /** The largest elapsed time that fits. */
  const LAST_SAFE: int := 2147483628

  lemma LastSafe(count: nat)
    ensures Waited(count) <= I32_MAX <==> Waited(count) <= LAST_SAFE
    ensures Overflows(count) <==> count >= 42949680
    ensures Waited(42949679) == LAST_SAFE
  {
    WaitedElapsed(count);
    WaitedElapsed(42949679);
  }

  /** No call of any episode overflows as long as every timeout read is at most 2147483628; one
      millisecond more and an overflowing call can be reached. */
  lemma OverflowReachableExactly(limit: int)
    ensures (exists timeouts: nat -> int, n: nat ::
               && (forall i: nat :: timeouts(i) <= limit)
               && Reaches(timeouts, n) && Overflows(n))
            <==> limit > LAST_SAFE
  {
    if limit > LAST_SAFE {
      var ts: nat -> int := _ => limit;
      var n := 42949680;
      LastSafe(n);
      forall i: nat | i < n ensures Waited(i) < ts(i) {
        WaitedGrows(i, n - 1);
      }
      assert Reaches(ts, n) && Overflows(n);
    }
    forall timeouts: nat -> int, n: nat |
      (forall i: nat :: timeouts(i) <= limit) && Reaches(timeouts, n) && Overflows(n)
      ensures limit > LAST_SAFE
    {
      LastSafe(n);
      assert Waited(n - 1) < timeouts(n - 1) <= limit;
      WaitedGrows(42949679, n - 1);
    }
  }

  // ---------- The arithmetic of the code ----------

  type i32 = x: int | -0x8000_0000 <= x < 0x8000_0000

  const WORD: int := 0x1_0000_0000

  /** A sum, product or difference in 32 bits, which wraps around. */
  function Wrap(v: int): (w: i32)
    ensures -0x8000_0000 <= v < 0x8000_0000 ==> w == v
  {
    (v + 0x8000_0000) % WORD - 0x8000_0000
  }

  /** The conversion of a delay to the 64 bits of a duration. */
  function AsDuration(delay: i32): (d: nat) {
    if delay >= 0 then delay else delay + 0x1_0000_0000_0000_0000
  }

  /** What a call of the handler sleeps as the code computes it, 0 where it gives up. */
  function CodeDelay(count: nat, timeout: i32): (d: nat) {
    var waited := Wrap(Waited(count));
    if waited >= timeout then 0
    else
      var left := Wrap(timeout - waited);
      AsDuration(if Scheduled(count) < left then Scheduled(count) else left)
  }

  /** Without overflow the code follows the schedule. */
  lemma CodeDelayExact(count: nat, timeout: i32)
    requires !Overflows(count)
    ensures CodeDelay(count, timeout) == Delay(count, timeout)
  {
    WaitedGrows(0, count);
    WaitedElapsed(0);
    hide Waited;
  }

  /** The first call that overflows: the sum wraps to a large negative number.  It gives up only for the
      lowest timeouts; for timeouts up to 29 ms it sleeps on although the time is long over, and above
      that the remaining time wraps too and the sleep is as good as endless. */
  lemma FirstOverflow(timeout: i32)
    ensures Overflows(42949680) && !Overflows(42949679)
    ensures var d := CodeDelay(42949680, timeout);
            && (timeout <= -2147483618 ==> d == 0)
            && (-2147483618 < timeout <= 29 ==> d == Min(MAX_DELAY, timeout + 2147483618))
            && (timeout > 29 ==> d == 0x1_0000_0000_0000_0000 + timeout - 2147483678
                                 && d > 0x8000_0000_0000_0000)
  {
    WaitedElapsed(42949680);
    WaitedElapsed(42949679);
    hide Waited;
    assert Wrap(2147483678) == -2147483618;
    if timeout > 29 {
      var v := timeout + 2147483618;
      assert (v + 0x8000_0000) % WORD == v + 0x8000_0000 - WORD;
    }
  }

  /** The engine makes call n in the code's arithmetic: calls 0..n-1 all slept. */
  ghost predicate CodeReaches(timeouts: nat -> i32, n: nat) {
    forall i: nat | i < n :: CodeDelay(i, timeouts(i)) > 0
  }

  /** As long as no earlier call overflows, the code makes the calls of the schedule. */
  lemma {:induction false} CodeReachesExact(timeouts: nat -> i32, n: nat)
    requires n <= 42949680
    ensures CodeReaches(timeouts, n) <==> forall i: nat | i < n :: Waited(i) < timeouts(i)
  {
    hide Waited, Delay, CodeDelay;
    forall i: nat | i < n ensures CodeDelay(i, timeouts(i)) > 0 <==> Waited(i) < timeouts(i) {
      LastSafe(i);
      CodeDelayExact(i, timeouts(i));
      DelayPositive(i, timeouts(i));
    }
  }

  lemma DelayPositive(count: nat, timeout: int)
    ensures Delay(count, timeout) > 0 <==> Waited(count) < timeout
  {
  }

  /** The limits on the timeout under which every call that the code makes sleeps as scheduled are exactly
      those up to 2147483628. */
  lemma CodeFollowsScheduleExactly(limit: i32)
    ensures (forall timeouts: nat -> i32, n: nat |
               (forall i: nat :: timeouts(i) <= limit) && CodeReaches(timeouts, n) ::
               CodeDelay(n, timeouts(n)) == Delay(n, timeouts(n)))
        <==> limit <= LAST_SAFE
  {
    hide Waited, Delay, CodeDelay;
    if limit <= LAST_SAFE {
      forall timeouts: nat -> i32, n: nat | (forall i: nat :: timeouts(i) <= limit) && CodeReaches(timeouts, n)
        ensures CodeDelay(n, timeouts(n)) == Delay(n, timeouts(n))
      {
        NeverReachesOverflow(timeouts, n, limit);
        CodeDelayExact(n, timeouts(n));
      }
    } else {
      var ts: nat -> i32 := _ => limit;
      var n := 42949680;
      LastSafe(n);
      forall i: nat | i < n ensures Waited(i) < ts(i) {
        LastSafe(n - 1);
        WaitedGrows(i, n - 1);
      }
      CodeReachesExact(ts, n);
      FirstOverflow(limit);
      DelayAtMost(n, limit);
      assert CodeReaches(ts, n) && CodeDelay(n, ts(n)) != Delay(n, ts(n));
    }
  }

  lemma DelayAtMost(count: nat, timeout: int)
    ensures Delay(count, timeout) <= MAX_DELAY
  {
  }

  lemma NeverReachesOverflow(timeouts: nat -> i32, n: nat, limit: i32)
    requires limit <= LAST_SAFE && (forall i: nat :: timeouts(i) <= limit) && CodeReaches(timeouts, n)
    ensures !Overflows(n)
  {
    hide Waited, CodeDelay;
    var m := if n < 42949680 then n else 42949680;
    LastSafe(n);
    assert CodeReaches(timeouts, m);
    if CodeReaches(timeouts, 42949680) {
      NeedsLargeTimeout(timeouts);
    }
  }

  lemma NeedsLargeTimeout(timeouts: nat -> i32)
    requires CodeReaches(timeouts, 42949680)
    ensures timeouts(42949679) > LAST_SAFE
  {
    hide Waited, CodeDelay;
    CodeReachesExact(timeouts, 42949680);
    LastSafe(42949679);
  }

  /** Wrapping at each step is wrapping once. */
  lemma WrapSum(a: int, b: int)
    ensures Wrap(a + Wrap(b)) == Wrap(a + b)
  {
    var c := b + 0x8000_0000;
    var k := c / WORD;
    assert c == WORD * k + c % WORD;
    assert a + Wrap(b) + 0x8000_0000 == a + b + 0x8000_0000 - WORD * k;
    ShiftRemainder(a + b + 0x8000_0000, k);
  }

  lemma ShiftRemainder(v: int, k: int)
    ensures (v - WORD * k) % WORD == v % WORD
  {
    UniqueRemainder(v - WORD * k, WORD, v / WORD - k, v % WORD);
  }

  lemma PartialSum(i: nat)
    requires i <= |DELAYS|
    ensures 0 <= Sum(DELAYS[..i]) <= 228
  {
    WaitedElapsed(i);
  }
}
