/** The locking of the searcher cache: any number of threads, each running the lock actions of one
    operation at a time. */
module CacheLocks {
  import opened Wrappers

  datatype Lock = ConfigLock | CacheLock | StatsLock

  datatype Action = Acquire(lock: Lock) | Release(lock: Lock)

  datatype Kind = Configure | Warm | GetSearcher | Evict | Clear | GetStats

  /** The configuration is copied under its own lock; guards are dropped in reverse order. */
  function Program(kind: Kind): (actions: seq<Action>) {
    match kind
    case Configure => [Acquire(ConfigLock), Release(ConfigLock)]
    case Warm => [Acquire(ConfigLock), Release(ConfigLock), Acquire(CacheLock), Acquire(StatsLock),
                  Release(StatsLock), Release(CacheLock)]
    case Evict => [Acquire(ConfigLock), Release(ConfigLock), Acquire(CacheLock), Acquire(StatsLock),
                   Release(StatsLock), Release(CacheLock)]
    case GetSearcher => [Acquire(CacheLock), Acquire(StatsLock), Release(StatsLock), Release(CacheLock)]
    case Clear => [Acquire(CacheLock), Acquire(StatsLock), Release(StatsLock), Release(CacheLock)]
    case GetStats => [Acquire(StatsLock), Acquire(CacheLock), Release(CacheLock), Release(StatsLock)]
  }

  predicate TakesCacheFirst(kind: Kind) {
    kind in {Warm, GetSearcher, Evict, Clear}
  }

  type Tid = nat

  /** A thread in the middle of an operation: `at` actions are done. */
  datatype Thread = Thread(kind: Kind, at: nat)

  /** The threads that are in an operation, and who holds each held lock. */
  datatype State = State(threads: map<Tid, Thread>, holders: map<Lock, Tid>)

  /** A thread starts an operation, does its next lock action, fails to open the index reader while
      warming (holding no lock), or returns when it has nothing left to do. */
  datatype Step = Start(t: Tid, kind: Kind) | Advance(t: Tid) | FailToOpen(t: Tid) | Return(t: Tid)

  function Next(th: Thread): Action
    requires th.at < |Program(th.kind)|
  {
    Program(th.kind)[th.at]
  }

  predicate Busy(s: State, t: Tid) {
    t in s.threads && s.threads[t].at < |Program(s.threads[t].kind)|
  }

  predicate CanAdvance(s: State, t: Tid) {
    Busy(s, t) && (Next(s.threads[t]).Acquire? ==> Next(s.threads[t]).lock !in s.holders)
  }

  predicate Enabled(s: State, step: Step) {
    match step
    case Start(t, _) => t !in s.threads
    case Advance(t) => CanAdvance(s, t)
    case FailToOpen(t) => t in s.threads && s.threads[t] == Thread(Warm, 2)
    case Return(t) => t in s.threads && !Busy(s, t)
  }

  function Advanced(s: State, t: Tid): State
    requires Busy(s, t)
  {
    var th := s.threads[t];
    var holders := match Next(th) case Acquire(l) => s.holders[l := t] case Release(l) => s.holders - {l};
    State(s.threads[t := th.(at := th.at + 1)], holders)
  }

  function Take(s: State, step: Step): State
    requires Enabled(s, step)
  {
    match step
    case Start(t, kind) => s.(threads := s.threads[t := Thread(kind, 0)])
    case Advance(t) => Advanced(s, t)
    case FailToOpen(t) => s.(threads := s.threads - {t})
    case Return(t) => s.(threads := s.threads - {t})
  }

  const INITIAL := State(map[], map[])

  /** The states of a run; None when a step is not enabled. */
  function Run(steps: seq<Step>): Option<State> {
    if steps == [] then Some(INITIAL)
    else
      var before := Run(steps[..|steps| - 1]);
      var step := steps[|steps| - 1];
      if before.Some? && Enabled(before.value, step) then Some(Take(before.value, step)) else None
  }

  /** Every operation that the run starts is of one of the kinds. */
  ghost predicate Uses(steps: seq<Step>, kinds: set<Kind>) {
    forall step <- steps :: step.Start? ==> step.kind in kinds
  }

  /** Thread t is about to acquire a lock that h holds. */
  predicate WaitsFor(s: State, t: Tid, lock: Lock, h: Tid) {
    Busy(s, t) && Next(s.threads[t]) == Acquire(lock) && lock in s.holders && s.holders[lock] == h
  }

  /** Threads that wait for one another and for nobody else: none of them ever goes on. */
  ghost predicate Deadlocked(s: State, group: set<Tid>) {
    group != {} && forall t <- group :: exists lock, h | h in group :: WaitsFor(s, t, lock, h)
  }

  ghost predicate DeadlockFree(kinds: set<Kind>) {
    forall steps: seq<Step>, group: set<Tid> | Uses(steps, kinds) && Run(steps).Some? ::
      !Deadlocked(Run(steps).value, group)
  }

  // ---------- Who holds what ----------

  /** Whether an operation holds a lock after its first `at` actions. */
  predicate Holds(kind: Kind, at: nat, lock: Lock)
    requires at <= |Program(kind)|
  {
    if at == 0 then false
    else
      var last := Program(kind)[at - 1];
      if last.lock == lock then last.Acquire? else Holds(kind, at - 1, lock)
  }

  ghost predicate Sound(s: State) {
    && (forall t <- s.threads :: s.threads[t].at <= |Program(s.threads[t].kind)|)
    && (forall l <- s.holders :: s.holders[l] in s.threads && Held(s, s.holders[l], l))
    && (forall t <- s.threads, l: Lock :: Held(s, t, l) ==> l in s.holders && s.holders[l] == t)
  }

  ghost predicate Held(s: State, t: Tid, l: Lock) {
    t in s.threads && s.threads[t].at <= |Program(s.threads[t].kind)|
    && Holds(s.threads[t].kind, s.threads[t].at, l)
  }

  /** The locks of each operation, read off its actions. */
  predicate Table(kind: Kind, at: nat, lock: Lock) {
    match kind
    case Configure => lock == ConfigLock && at == 1
    case Warm =>
      (lock == ConfigLock && at == 1) || (lock == CacheLock && 3 <= at <= 5) || (lock == StatsLock && at == 4)
    case Evict =>
      (lock == ConfigLock && at == 1) || (lock == CacheLock && 3 <= at <= 5) || (lock == StatsLock && at == 4)
    case GetSearcher => (lock == CacheLock && 1 <= at <= 3) || (lock == StatsLock && at == 2)
    case Clear => (lock == CacheLock && 1 <= at <= 3) || (lock == StatsLock && at == 2)
    case GetStats => (lock == StatsLock && 1 <= at <= 3) || (lock == CacheLock && at == 2)
  }

  lemma {:induction false} HoldsIsTable(kind: Kind, at: nat, lock: Lock)
    requires at <= |Program(kind)|
    ensures Holds(kind, at, lock) == Table(kind, at, lock)
    decreases at
  {
    if at > 0 {
      HoldsIsTable(kind, at - 1, lock);
    }
  }

  /** An operation starts and ends without locks, and a warming that fails to open the reader holds none. */
  lemma NothingHeld(kind: Kind, lock: Lock)
    ensures !Holds(kind, 0, lock) && !Holds(kind, |Program(kind)|, lock) && !Holds(Warm, 2, lock)
  {
    HoldsIsTable(kind, |Program(kind)|, lock);
    HoldsIsTable(Warm, 2, lock);
  }

  /** What an operation holds when it is about to acquire a lock; and it never acquires a lock that it
      holds, nor releases one that it does not. */
  lemma HeldAt(kind: Kind, at: nat, lock: Lock)
    requires at < |Program(kind)|
    ensures Program(kind)[at].Acquire? && Holds(kind, at, lock) ==>
            if kind == GetStats then lock == StatsLock && Program(kind)[at].lock == CacheLock
            else lock == CacheLock && Program(kind)[at].lock == StatsLock && TakesCacheFirst(kind)
    ensures Program(kind)[at].Acquire? ==> !Holds(kind, at, Program(kind)[at].lock)
    ensures Program(kind)[at].Release? ==> Holds(kind, at, Program(kind)[at].lock)
  {
    HoldsIsTable(kind, at, lock);
    HoldsIsTable(kind, at, Program(kind)[at].lock);
  }

  /** Only the operation's own action changes what it holds. */
  lemma HoldsNext(kind: Kind, at: nat, lock: Lock)
    requires at < |Program(kind)|
    ensures Holds(kind, at + 1, lock)
         == if Program(kind)[at].lock == lock then Program(kind)[at].Acquire? else Holds(kind, at, lock)
  {
  }

  // ---------- Soundness is kept ----------

  lemma StartKeepsSound(s: State, t: Tid, kind: Kind)
    requires Sound(s) && t !in s.threads
    ensures Sound(Take(s, Start(t, kind)))
  {
    hide Holds, Program;
    var s' := Take(s, Start(t, kind));
    forall l: Lock ensures !Held(s', t, l) {
      NothingHeld(kind, l);
    }
    forall u, l: Lock | u in s.threads ensures Held(s', u, l) == Held(s, u, l) {
    }
  }

  lemma EndKeepsSound(s: State, t: Tid)
    requires Sound(s) && t in s.threads && forall l: Lock :: !Held(s, t, l)
    ensures Sound(s.(threads := s.threads - {t}))
  {
    hide Holds, Program;
    var s' := s.(threads := s.threads - {t});
    forall u, l: Lock | u in s'.threads ensures Held(s', u, l) == Held(s, u, l) {
    }
    forall l | l in s'.holders ensures s'.holders[l] in s'.threads && Held(s', s'.holders[l], l) {
      assert Held(s, s.holders[l], l);
    }
  }

  lemma AdvanceKeepsSound(s: State, t: Tid)
    requires Sound(s) && CanAdvance(s, t)
    ensures Sound(Advanced(s, t))
  {
    hide Holds, Program;
    var s', th := Advanced(s, t), s.threads[t];
    var lock := Next(th).lock;
    HeldAt(th.kind, th.at, lock);
    forall u, l: Lock | u in s.threads
      ensures Held(s', u, l) == if u == t && l == lock then Next(th).Acquire? else Held(s, u, l)
    {
      if u == t {
        HoldsNext(th.kind, th.at, l);
      }
    }
    forall l | l in s'.holders ensures s'.holders[l] in s'.threads && Held(s', s'.holders[l], l) {
      if l != lock {
        assert Held(s, s.holders[l], l);
      }
    }
  }

  lemma StepKeepsSound(s: State, step: Step)
    requires Sound(s) && Enabled(s, step)
    ensures Sound(Take(s, step))
  {
    hide Sound, Holds, Program;
    match step
    case Start(t, kind) => StartKeepsSound(s, t, kind);
    case Advance(t) => AdvanceKeepsSound(s, t);
    case FailToOpen(t) => FinishedHolds(s, t); EndKeepsSound(s, t);
    case Return(t) => FinishedHolds(s, t); EndKeepsSound(s, t);
  }

  lemma FinishedHolds(s: State, t: Tid)
    requires Sound(s) && t in s.threads && (!Busy(s, t) || s.threads[t] == Thread(Warm, 2))
    ensures forall l: Lock :: !Held(s, t, l)
  {
    hide Holds, Program;
    forall l: Lock ensures !Held(s, t, l) {
      NothingHeld(s.threads[t].kind, l);
    }
  }

  /** In every reachable state each lock is held by the one operation whose actions say so. */
  lemma {:induction false} RunSound(steps: seq<Step>, kinds: set<Kind>)
    requires Uses(steps, kinds) && Run(steps).Some?
    ensures Sound(Run(steps).value)
    ensures forall t <- Run(steps).value.threads :: Run(steps).value.threads[t].kind in kinds
    decreases |steps|
  {
    hide Sound, Busy, Program;
    if steps == [] {
      InitialSound();
    } else {
      var before, step := steps[..|steps| - 1], steps[|steps| - 1];
      assert steps == before + [step];
      RunSound(before, kinds);
      StepKeepsSound(Run(before).value, step);
      KindsKept(Run(before).value, step, kinds);
    }
  }

  lemma InitialSound()
    ensures Sound(INITIAL)
  {
  }

  lemma KindsKept(s: State, step: Step, kinds: set<Kind>)
    requires Enabled(s, step) && (step.Start? ==> step.kind in kinds)
    requires forall t <- s.threads :: s.threads[t].kind in kinds
    ensures forall t <- Take(s, step).threads :: Take(s, step).threads[t].kind in kinds
  {
    hide Program;
  }

  // ---------- Deadlock ----------

  /** The lock orders of the operations agree. */
  ghost predicate OneOrder(kinds: set<Kind>) {
    GetStats !in kinds || forall kind <- kinds :: !TakesCacheFirst(kind)
  }

  /** What a holder waits for that is waited for. */
  lemma HolderOfWaited(s: State, t: Tid, l: Lock, h: Tid, l': Lock, g: Tid)
    requires Sound(s) && WaitsFor(s, t, l, h) && WaitsFor(s, h, l', g)
    ensures h in s.threads
    ensures if s.threads[h].kind == GetStats then l == StatsLock && l' == CacheLock
            else l == CacheLock && l' == StatsLock && TakesCacheFirst(s.threads[h].kind)
  {
    hide Holds, Program;
    assert Held(s, h, l);
    HeldAt(s.threads[h].kind, s.threads[h].at, l);
  }

  /** A deadlocked group has both an operation that takes the cache first and one that takes the
      statistics first. */
  lemma DeadlockNeedsBothOrders(s: State, group: set<Tid>)
    requires Sound(s)
    ensures Deadlocked(s, group) ==>
            && (exists t <- group :: t in s.threads && s.threads[t].kind == GetStats)
            && (exists t <- group :: t in s.threads && TakesCacheFirst(s.threads[t].kind))
  {
    hide Sound, WaitsFor, TakesCacheFirst;
    if Deadlocked(s, group) {
      var t :| t in group;
      var l, h :| h in group && WaitsFor(s, t, l, h);
      var l', g :| g in group && WaitsFor(s, h, l', g);
      var l'', f :| f in group && WaitsFor(s, g, l'', f);
      HolderOfWaited(s, t, l, h, l', g);
      HolderOfWaited(s, h, l', g, l'', f);
    }
  }

  lemma RunAppend(steps: seq<Step>, step: Step)
    requires Run(steps).Some? && Enabled(Run(steps).value, step)
    ensures Run(steps + [step]) == Some(Take(Run(steps).value, step))
  {
    assert (steps + [step])[..|steps + [step]| - 1] == steps;
  }

  lemma AdvanceOnce(steps: seq<Step>, s: State, t: Tid)
    requires Run(steps) == Some(s) && CanAdvance(s, t)
    ensures Run(steps + [Advance(t)]) == Some(Advanced(s, t))
  {
    RunAppend(steps, Advance(t));
  }

  /** A thread goes past copying the configuration, if its operation does that. */
  lemma PassConfig(kind: Kind) returns (steps: seq<Step>, at: nat)
    requires TakesCacheFirst(kind)
    ensures Uses(steps, {kind}) && at + 1 < |Program(kind)|
    ensures Run(steps) == Some(State(map[0 := Thread(kind, at)], map[]))
    ensures Program(kind)[at] == Acquire(CacheLock) && Program(kind)[at + 1] == Acquire(StatsLock)
  {
    hide Run;
    InitialRun();
    RunAppend([], Start(0, kind));
    steps, at := [] + [Start(0, kind)], 0;
    var s := State(map[0 := Thread(kind, 0)], map[]);
    assert Run(steps) == Some(s);
    if kind == Warm || kind == Evict {
      AdvanceOnce(steps, s, 0);
      AdvanceOnce(steps + [Advance(0)], Advanced(s, 0), 0);
      steps, at := steps + [Advance(0)] + [Advance(0)], 2;
      assert Advanced(Advanced(s, 0), 0) == State(map[0 := Thread(kind, 2)], map[]);
    }
  }

  lemma InitialRun()
    ensures Run([]) == Some(INITIAL)
  {
  }

  /** A thread goes as far as holding the cache. */
  lemma HoldCache(kind: Kind) returns (steps: seq<Step>, at: nat)
    requires TakesCacheFirst(kind)
    ensures Uses(steps, {kind})
    ensures Run(steps) == Some(State(map[0 := Thread(kind, at)], map[CacheLock := 0]))
    ensures at < |Program(kind)| && Program(kind)[at] == Acquire(StatsLock)
  {
    hide Run, Program;
    steps, at := PassConfig(kind);
    var s := State(map[0 := Thread(kind, at)], map[]);
    AdvanceOnce(steps, s, 0);
    assert Advanced(s, 0) == State(map[0 := Thread(kind, at + 1)], map[CacheLock := 0]);
    steps, at := steps + [Advance(0)], at + 1;
  }

  /** Any operation that takes the cache first can deadlock with one that reads the statistics. */
  lemma BothOrdersDeadlock(kind: Kind) returns (steps: seq<Step>)
    requires TakesCacheFirst(kind)
    ensures Uses(steps, {kind, GetStats}) && Run(steps).Some? && Deadlocked(Run(steps).value, {0, 1})
  {
    hide Run, Program, Deadlocked, CanAdvance, Advanced;
    var lead, at := HoldCache(kind);
    var t := ReportStarts(kind, at);
    RunAppend(lead, Start(1, GetStats));
    AdvanceOnce(lead + [Start(1, GetStats)], t, 1);
    steps := lead + [Start(1, GetStats)] + [Advance(1)];
    EachWaits(Advanced(t, 1), kind, at);
  }

  /** A report starts and takes the statistics while another thread holds the cache. */
  lemma ReportStarts(kind: Kind, at: nat) returns (t: State)
    ensures var s := State(map[0 := Thread(kind, at)], map[CacheLock := 0]);
            Enabled(s, Start(1, GetStats)) && t == Take(s, Start(1, GetStats))
    ensures CanAdvance(t, 1)
    ensures Advanced(t, 1).threads == map[0 := Thread(kind, at), 1 := Thread(GetStats, 1)]
    ensures Advanced(t, 1).holders == map[CacheLock := 0, StatsLock := 1]
  {
    t := State(map[0 := Thread(kind, at), 1 := Thread(GetStats, 0)], map[CacheLock := 0]);
    assert t.threads == map[0 := Thread(kind, at)][1 := Thread(GetStats, 0)];
  }

  lemma EachWaits(s: State, kind: Kind, at: nat)
    requires at < |Program(kind)| && Program(kind)[at] == Acquire(StatsLock)
    requires s.threads == map[0 := Thread(kind, at), 1 := Thread(GetStats, 1)]
    requires s.holders == map[CacheLock := 0, StatsLock := 1]
    ensures Deadlocked(s, {0, 1})
  {
    assert WaitsFor(s, 0, StatsLock, 1) && WaitsFor(s, 1, CacheLock, 0);
  }

  /** For any number of threads and every set of operation kinds: no run of these operations deadlocks
      if and only if the set does not have both the statistics report and an operation that takes the
      cache first. */
  lemma DeadlockFreeExactly(kinds: set<Kind>)
    ensures DeadlockFree(kinds) <==> OneOrder(kinds)
  {
    hide Run, Deadlocked, TakesCacheFirst;
    if OneOrder(kinds) {
      forall steps: seq<Step>, group: set<Tid> | Uses(steps, kinds) && Run(steps).Some?
        ensures !Deadlocked(Run(steps).value, group)
      {
        if Deadlocked(Run(steps).value, group) {
          RunSound(steps, kinds);
          DeadlockNeedsBothOrders(Run(steps).value, group);
        }
      }
    } else {
      var kind :| kind in kinds && TakesCacheFirst(kind);
      var steps := BothOrdersDeadlock(kind);
      assert Uses(steps, kinds);
    }
  }

  // ---------- Progress ----------

  /** The lock actions still to be done. */
  ghost function Pending(s: State): set<(Tid, nat)> {
    set t, i: nat | t in s.threads && i < |Program(s.threads[t].kind)| && s.threads[t].at <= i :: (t, i)
  }

  lemma AdvanceShrinks(s: State, t: Tid)
    requires CanAdvance(s, t)
    ensures Pending(Advanced(s, t)) == Pending(s) - {(t, s.threads[t].at)}
    ensures |Pending(Advanced(s, t))| == |Pending(s)| - 1
  {
    hide Program;
    assert (t, s.threads[t].at) in Pending(s);
  }

  ghost function BusyThreads(s: State): set<Tid> {
    set t | t in s.threads && Busy(s, t)
  }

  lemma WaitingFor(s: State, t: Tid) returns (lock: Lock, h: Tid)
    requires Sound(s) && Busy(s, t) && !CanAdvance(s, t)
    ensures h in BusyThreads(s) && WaitsFor(s, t, lock, h)
  {
    hide Program, Holds;
    lock := Next(s.threads[t]).lock;
    h := s.holders[lock];
    assert Held(s, h, lock);
    NothingHeld(s.threads[h].kind, lock);
  }

  lemma NobodyAdvances(s: State)
    requires Sound(s) && BusyThreads(s) != {} && forall t: Tid :: !CanAdvance(s, t)
    ensures Deadlocked(s, BusyThreads(s))
  {
    hide Sound, Program, CanAdvance, WaitsFor;
    forall t | t in BusyThreads(s)
      ensures exists lock, h | h in BusyThreads(s) :: WaitsFor(s, t, lock, h)
    {
      var lock, h := WaitingFor(s, t);
    }
  }

  lemma PendingIsBusy(s: State)
    ensures Pending(s) != {} ==> BusyThreads(s) != {}
  {
    hide Program;
    if Pending(s) != {} {
      var pair :| pair in Pending(s);
      assert pair.0 in BusyThreads(s);
    }
  }

  /** While the operations agree on the order of the locks and one of them has lock actions left, some
      thread can do its next one. */
  lemma SomeThreadAdvances(steps: seq<Step>, kinds: set<Kind>)
    requires OneOrder(kinds) && Uses(steps, kinds) && Run(steps).Some?
    requires Pending(Run(steps).value) != {}
    ensures exists t: Tid :: CanAdvance(Run(steps).value, t)
  {
    hide Run, Sound, OneOrder, CanAdvance, Pending, BusyThreads, Deadlocked;
    var s := Run(steps).value;
    PendingIsBusy(s);
    RunSound(steps, kinds);
    DeadlockFreeExactly(kinds);
    assert !Deadlocked(s, BusyThreads(s));
    if forall t: Tid :: !CanAdvance(s, t) {
      NobodyAdvances(s);
    }
  }

  /** A schedule of the lock actions of operations already started. */
  ghost predicate OnlyAdvances(steps: seq<Step>) {
    forall step <- steps :: step.Advance?
  }

  lemma {:induction false} RunPrefix(steps: seq<Step>, more: seq<Step>)
    requires Run(steps + more).Some?
    ensures Run(steps).Some?
    decreases |more|
  {
    if more == [] {
      assert steps + more == steps;
    } else {
      var n := |more| - 1;
      assert (steps + more)[..|steps + more| - 1] == steps + more[..n];
      RunPrefix(steps, more[..n]);
    }
  }

  /** Every schedule does one pending action per step, so none is longer than the pending actions; and one
      that is as long has finished all operations. */
  lemma {:induction false} SchedulesShrink(steps: seq<Step>, more: seq<Step>)
    requires Run(steps + more).Some? && OnlyAdvances(more)
    ensures Run(steps).Some?
    ensures |Pending(Run(steps + more).value)| == |Pending(Run(steps).value)| - |more|
    decreases |more|
  {
    RunPrefix(steps, more);
    hide Pending;
    if more == [] {
      assert steps + more == steps;
    } else {
      var n := |more| - 1;
      var before := steps + more[..n];
      assert steps + more == before + [more[n]];
      assert (steps + more)[..|steps + more| - 1] == before && more[n] in more;
      SchedulesShrink(steps, more[..n]);
      AdvanceShrinks(Run(before).value, more[n].t);
    }
  }

  /** Every run of operations that agree on the order of the locks can go on, without starting new ones,
      until nothing is pending; that takes as many lock actions as were pending. */
  lemma {:induction false} AllFinish(steps: seq<Step>, kinds: set<Kind>) returns (more: seq<Step>)
    requires OneOrder(kinds) && Uses(steps, kinds) && Run(steps).Some?
    ensures OnlyAdvances(more) && Run(steps + more).Some? && Pending(Run(steps + more).value) == {}
    ensures |more| == |Pending(Run(steps).value)|
    decreases |Pending(Run(steps).value)|
  {
    hide Pending, OneOrder, Run;
    if Pending(Run(steps).value) == {} {
      more := [];
      assert steps + more == steps;
    } else {
      SomeThreadAdvances(steps, kinds);
      var t: Tid :| CanAdvance(Run(steps).value, t);
      RunAppend(steps, Advance(t));
      AdvanceShrinks(Run(steps).value, t);
      var rest := AllFinish(steps + [Advance(t)], kinds);
      more := [Advance(t)] + rest;
      assert steps + more == (steps + [Advance(t)]) + rest;
    }
  }
}
