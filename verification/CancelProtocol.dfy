/** The SQLite connection as a protocol: a mutex around the connection, a cancel flag and a busy
    handler, stepped by any number of threads.  A step is one atomic access; between any two steps of
    a thread all other threads may act. */
module CancelProtocol {
  import opened Wrappers
  import opened BusyHandler

  type Tid = nat

  datatype Reply = Rows | SqlError | Closed | Contended | Ok

  /** Where a running statement stands in the busy handler; `count` is SQLite's call number. */
  datatype Busy =
    | NotBusy
    | Asked(count: nat)                 // called, flag not yet read
    | Armed(count: nat)                 // the first read of the flag saw it clear
    | Asleep(count: nat, delay: int)
    | Answered(count: nat, again: bool) // returned 1 (again) or 0

  /** What a thread is doing.  `work` and `executed` count what its call has executed so far. */
  datatype Pc =
    | Idle
    | Waiting                        // a statement call, blocked on the mutex
    | Entering                       // holds the mutex, has not looked at the connection
    | Running(work: nat, busy: Busy) // flag cleared, executing
    | CloseWaiting                   // close: flag stored, blocked on the mutex
    | CloseEntering
    | Dropping                       // close: connection taken out, still holding the mutex
    | Replied(reply: Reply, executed: nat)

  datatype State = State(cancelled: bool, timeout: i32, open: bool, holder: Holder, pcs: map<Tid, Pc>)

  datatype Holder = Nobody | HeldBy(t: Tid)

  datatype Action =
    | Query(t: Tid) | QueryInline(t: Tid) | Close(t: Tid) | Cancel(t: Tid) | SetTimeout(t: Tid, ms: i32)
    | Lock(t: Tid) | Enter(t: Tid)
    | Work(t: Tid) | CallHandler(t: Tid) | CheckFlag(t: Tid) | ReadTimeout(t: Tid) | Wake(t: Tid) | GotLock(t: Tid)
    | Finish(t: Tid, reply: Reply)
    | Take(t: Tid) | Dropped(t: Tid, reply: Reply) | Return(t: Tid)

  function PcOf(s: State, t: Tid): Pc {
    if t in s.pcs then s.pcs[t] else Idle
  }

  function At(s: State, t: Tid, pc: Pc): State {
    s.(pcs := s.pcs[t := pc])
  }

  const START := State(false, 2000, true, Nobody, map[])

  /** One step; None where the action is not enabled. */
  function Step(s: State, a: Action): Option<State> {
    var pc := PcOf(s, a.t);
    match a
    case Query(t) => if pc == Idle then Some(At(s, t, Waiting)) else None
    case QueryInline(t) =>
      if pc != Idle then None
      else if s.holder == Nobody then Some(At(s, t, Entering).(holder := HeldBy(t)))
      else Some(At(s, t, Replied(Contended, 0)))
    case Close(t) => if pc == Idle then Some(At(s, t, CloseWaiting).(cancelled := true)) else None
    case Cancel(t) => if pc == Idle then Some(s.(cancelled := true)) else None
    case SetTimeout(t, ms) => if pc == Idle then Some(s.(timeout := ms)) else None
    case Lock(t) =>
      if s.holder != Nobody then None
      else if pc == Waiting then Some(At(s, t, Entering).(holder := HeldBy(t)))
      else if pc == CloseWaiting then Some(At(s, t, CloseEntering).(holder := HeldBy(t)))
      else None
    case Enter(t) =>
      if pc != Entering then None
      else if s.open then Some(At(s, t, Running(0, NotBusy)).(cancelled := false))
      else Some(At(s, t, Replied(Closed, 0)).(holder := Nobody))
    case Work(t) =>
      if pc.Running? && pc.busy == NotBusy then Some(At(s, t, pc.(work := pc.work + 1))) else None
    case CallHandler(t) =>
      if pc.Running? && pc.busy == NotBusy then Some(At(s, t, pc.(busy := Asked(0))))
      else if pc.Running? && pc.busy.Answered? && pc.busy.again then
        Some(At(s, t, pc.(busy := Asked(pc.busy.count + 1))))
      else None
    case CheckFlag(t) =>
      if pc.Running? && pc.busy.Asked? then
        Some(At(s, t, pc.(busy := if s.cancelled then Answered(pc.busy.count, false) else Armed(pc.busy.count))))
      else None
    case ReadTimeout(t) =>
      if pc.Running? && pc.busy.Armed? then
        var delay := CodeDelay(pc.busy.count, s.timeout);
        Some(At(s, t, pc.(busy := if delay == 0 then Answered(pc.busy.count, false) else Asleep(pc.busy.count, delay))))
      else None
    case Wake(t) =>
      if pc.Running? && pc.busy.Asleep? then
        Some(At(s, t, pc.(busy := Answered(pc.busy.count, !s.cancelled))))
      else None
    case GotLock(t) =>
      if pc.Running? && pc.busy.Answered? && pc.busy.again then Some(At(s, t, pc.(busy := NotBusy))) else None
    case Finish(t, reply) =>
      if && pc.Running? && (pc.busy == NotBusy || (pc.busy.Answered? && !pc.busy.again))
         && (reply == Rows || reply == SqlError)
      then Some(At(s, t, Replied(reply, pc.work)).(holder := Nobody))
      else None
    case Take(t) =>
      if pc != CloseEntering then None
      else if s.open then Some(At(s, t, Dropping).(open := false))
      else Some(At(s, t, Replied(Ok, 0)).(holder := Nobody))
    case Dropped(t, reply) =>
      if pc == Dropping && (reply == Ok || reply == SqlError) then
        Some(At(s, t, Replied(reply, 0)).(holder := Nobody))
      else None
    case Return(t) => if pc.Replied? then Some(At(s, t, Idle)) else None
  }

  /** The state after a run, None where the run is not possible. */
  function Exec(run: seq<Action>): Option<State> {
    if run == [] then Some(START)
    else
      var before := Exec(run[..|run| - 1]);
      if before.None? then None else Step(before.value, run[|run| - 1])
  }

  predicate Possible(run: seq<Action>) {
    Exec(run).Some?
  }

  lemma {:induction false} PrefixPossible(run: seq<Action>, i: nat)
    requires Possible(run) && i <= |run|
    ensures Possible(run[..i])
    decreases |run|
  {
    if i == |run| {
      assert run[..i] == run;
    } else {
      PrefixPossible(run[..|run| - 1], i);
      assert run[..|run| - 1][..i] == run[..i];
    }
  }

  /** The state before action i of a run. */
  function Before(run: seq<Action>, i: nat): State
    requires Possible(run) && i <= |run|
  {
    PrefixPossible(run, i);
    Exec(run[..i]).value
  }

  lemma StepOfRun(run: seq<Action>, i: nat)
    requires Possible(run) && i < |run|
    ensures Step(Before(run, i), run[i]) == Some(Before(run, i + 1))
  {
    PrefixPossible(run, i);
    PrefixPossible(run, i + 1);
    assert run[..i + 1][..i] == run[..i];
    hide Step;
  }

  // ---------- The invariant ----------

  predicate HoldsMutex(pc: Pc) {
    pc == Entering || pc.Running? || pc == CloseEntering || pc == Dropping
  }

  ghost predicate OneHolder(s: State) {
    forall t: Tid :: HoldsMutex(PcOf(s, t)) <==> s.holder == HeldBy(t)
  }

  ghost predicate RunsOnOpen(s: State) {
    forall t: Tid :: (PcOf(s, t).Running? ==> s.open) && (PcOf(s, t) == Dropping ==> !s.open)
  }

  ghost predicate RefusedDidNothing(s: State) {
    forall t: Tid :: var pc := PcOf(s, t);
      pc.Replied? && (pc.reply == Closed || pc.reply == Contended) ==> pc.executed == 0
  }

  ghost predicate Inv(s: State) {
    OneHolder(s) && RunsOnOpen(s) && RefusedDidNothing(s)
  }

  lemma OthersKeepPc(s: State, a: Action, t: Tid)
    requires Step(s, a).Some? && a.t != t
    ensures PcOf(Step(s, a).value, t) == PcOf(s, t)
  {
  }

  lemma StepKeepsOneHolder(s: State, a: Action)
    requires OneHolder(s) && Step(s, a).Some?
    ensures OneHolder(Step(s, a).value)
  {
    hide OneHolder;
    forall t: Tid ensures HoldsMutex(PcOf(Step(s, a).value, t)) <==> Step(s, a).value.holder == HeldBy(t) {
      OneHolderAt(s, a.t);
      OneHolderAt(s, t);
      StepHolder(s, a, t);
    }
    IsOneHolder(Step(s, a).value);
  }

  lemma OneHolderAt(s: State, t: Tid)
    requires OneHolder(s)
    ensures HoldsMutex(PcOf(s, t)) <==> s.holder == HeldBy(t)
  {
  }

  lemma IsOneHolder(s: State)
    requires forall t: Tid :: HoldsMutex(PcOf(s, t)) <==> s.holder == HeldBy(t)
    ensures OneHolder(s)
  {
  }

  lemma StepHolder(s: State, a: Action, t: Tid)
    requires Step(s, a).Some?
    requires HoldsMutex(PcOf(s, t)) <==> s.holder == HeldBy(t)
    requires HoldsMutex(PcOf(s, a.t)) <==> s.holder == HeldBy(a.t)
    ensures HoldsMutex(PcOf(Step(s, a).value, t)) <==> Step(s, a).value.holder == HeldBy(t)
  {
    if t != a.t {
      OthersKeepPc(s, a, t);
    }
  }

  lemma StepKeepsRunsOnOpen(s: State, a: Action)
    requires OneHolder(s) && RunsOnOpen(s) && Step(s, a).Some?
    ensures RunsOnOpen(Step(s, a).value)
  {
    var s' := Step(s, a).value;
    forall t: Tid
      ensures (PcOf(s', t).Running? ==> s'.open) && (PcOf(s', t) == Dropping ==> !s'.open)
    {
      assert HoldsMutex(PcOf(s, t)) <==> s.holder == HeldBy(t);
      assert HoldsMutex(PcOf(s, a.t)) <==> s.holder == HeldBy(a.t);
      if t != a.t {
        OthersKeepPc(s, a, t);
      }
    }
  }

  lemma StepKeepsRefusals(s: State, a: Action)
    requires RefusedDidNothing(s) && Step(s, a).Some?
    ensures RefusedDidNothing(Step(s, a).value)
  {
    var s' := Step(s, a).value;
    forall t: Tid
      ensures var pc := PcOf(s', t);
              pc.Replied? && (pc.reply == Closed || pc.reply == Contended) ==> pc.executed == 0
    {
      if t != a.t {
        OthersKeepPc(s, a, t);
      }
    }
  }

  lemma StepKeepsInv(s: State, a: Action)
    requires Inv(s) && Step(s, a).Some?
    ensures Inv(Step(s, a).value)
  {
    hide Step, OneHolder, RunsOnOpen, RefusedDidNothing;
    StepKeepsOneHolder(s, a);
    StepKeepsRunsOnOpen(s, a);
    StepKeepsRefusals(s, a);
  }

  lemma {:induction false} RunKeepsInv(run: seq<Action>)
    requires Possible(run)
    ensures Inv(Exec(run).value)
  {
    if run != [] {
      RunKeepsInv(run[..|run| - 1]);
      StepKeepsInv(Exec(run[..|run| - 1]).value, run[|run| - 1]);
    }
  }

  /** At any moment of any run at most one thread is inside the mutex, and no statement runs on a
      connection that was taken out. */
  lemma MutualExclusion(run: seq<Action>, t: Tid, u: Tid)
    requires Possible(run)
    ensures var s := Exec(run).value;
            && (HoldsMutex(PcOf(s, t)) && HoldsMutex(PcOf(s, u)) ==> t == u)
            && (PcOf(s, t).Running? ==> s.open)
  {
    RunKeepsInv(run);
  }

  /** Only the mutex holder clears the flag, when it enters an open connection. */
  lemma OnlyHolderClears(run: seq<Action>, a: Action)
    requires Possible(run + [a])
    ensures Possible(run)
    ensures Exec(run).value.cancelled && !Exec(run + [a]).value.cancelled ==>
            a == Enter(a.t) && Exec(run).value.holder == HeldBy(a.t) && Exec(run).value.open
  {
    assert (run + [a])[..|run|] == run;
    RunKeepsInv(run);
  }

  // ---------- Visibility of a cancel ----------

  /** An action that stores `true` into the flag. */
  predicate Stores(a: Action) {
    a.Cancel? || a.Close?
  }

  /** Thread t cleared the flag with action i and executes without a break until action j. */
  ghost predicate RunsFrom(run: seq<Action>, t: Tid, i: nat, j: nat)
    requires Possible(run)
  {
    && i < j <= |run|
    && run[i] == Enter(t)
    && forall k :: i < k <= j ==> PcOf(Before(run, k), t).Running?
  }

  /** While a thread executes, the flag is set exactly when a cancel or a close was issued since that
      thread cleared it: none of them is lost, and nothing else sets it. */
  lemma {:induction false} FlagExact(run: seq<Action>, t: Tid, i: nat, j: nat)
    requires Possible(run) && RunsFrom(run, t, i, j)
    ensures Before(run, j).cancelled <==> exists k :: i < k < j && Stores(run[k])
    decreases j
  {
    hide Step, Inv;
    StepOfRun(run, j - 1);
    PrefixPossible(run, j - 1);
    RunKeepsInv(run[..j - 1]);
    assert PcOf(Before(run, j), t).Running?;
    if j > i + 1 {
      FlagExact(run, t, i, j - 1);
      assert PcOf(Before(run, j - 1), t).Running?;
      FlagStep(Before(run, j - 1), run[j - 1], t);
      assert forall k | i < k < j && Stores(run[k]) :: k == j - 1 || i < k < j - 1;
    } else {
      EnterClears(Before(run, i), t);
    }
  }

  lemma EnterClears(s: State, t: Tid)
    requires Step(s, Enter(t)).Some? && PcOf(Step(s, Enter(t)).value, t).Running?
    ensures !Step(s, Enter(t)).value.cancelled
  {
  }

  lemma FlagStep(s: State, a: Action, t: Tid)
    requires Inv(s) && PcOf(s, t).Running? && Step(s, a).Some?
    ensures Step(s, a).value.cancelled <==> s.cancelled || Stores(a)
  {
  }

  /** The next look of the busy handler at the flag ends the wait exactly when a cancel or a close was
      issued since the clear: the first read before sleeping, and the read after waking. */
  lemma HandlerSeesCancelExactly(run: seq<Action>, t: Tid, i: nat, j: nat)
    requires Possible(run) && RunsFrom(run, t, i, j) && j < |run|
    requires run[j] == CheckFlag(t) || run[j] == Wake(t)
    ensures var pc := PcOf(Before(run, j + 1), t);
            && pc.Running?
            && (pc.busy.Answered? && !pc.busy.again <==> exists k :: i < k < j && Stores(run[k]))
  {
    FlagExact(run, t, i, j);
    StepOfRun(run, j);
  }

  /** A thread enters an open connection, which clears the flag. */
  predicate Clears(run: seq<Action>, j: nat)
    requires Possible(run) && j < |run|
  {
    run[j].Enter? && Before(run, j).open
  }

  /** From action k to action m no thread enters an open connection. */
  ghost predicate NobodyEnters(run: seq<Action>, k: nat, m: nat)
    requires Possible(run) && m <= |run|
  {
    forall j :: k < j < m ==> !Clears(run, j)
  }

  lemma FlagKept(s: State, a: Action)
    requires Step(s, a).Some?
    ensures Step(s, a).value.cancelled <==> Stores(a) || (s.cancelled && !(a.Enter? && s.open))
  {
  }

  /** What one cancel or close achieves.  The flag it sets at action k stays set at every moment up to
      action m exactly when no thread enters an open connection in between: take for m the take of a
      close, and that is how long it wakes the callers it waits for. */
  lemma {:induction false} StoreSeenExactly(run: seq<Action>, k: nat, m: nat)
    requires Possible(run) && k < m <= |run| && Stores(run[k])
    ensures (forall j :: k < j <= m ==> Before(run, j).cancelled) <==> NobodyEnters(run, k, m)
    decreases m
  {
    hide Step;
    StepOfRun(run, m - 1);
    FlagKept(Before(run, m - 1), run[m - 1]);
    if m > k + 1 {
      StoreSeenExactly(run, k, m - 1);
      OneMore(run, k, m);
      if Clears(run, m - 1) {
        assert !Before(run, m).cancelled;
      } else if forall j :: k < j <= m - 1 ==> Before(run, j).cancelled {
        assert Before(run, m - 1).cancelled;
      }
    }
  }

  lemma OneMore(run: seq<Action>, k: nat, m: nat)
    requires Possible(run) && k + 1 < m <= |run|
    ensures NobodyEnters(run, k, m) <==> NobodyEnters(run, k, m - 1) && !Clears(run, m - 1)
  {
  }

  /** The looks of the busy handler at the flag. */
  predicate Looks(a: Action) {
    a.CheckFlag? || a.Wake?
  }

  /** As long as no thread enters, every look after the store ends its thread's wait. */
  lemma StoreEndsWaits(run: seq<Action>, k: nat, m: nat, j: nat)
    requires Possible(run) && k < j < m <= |run| && Stores(run[k]) && NobodyEnters(run, k, m) && Looks(run[j])
    ensures var pc := PcOf(Before(run, j + 1), run[j].t);
            pc.Running? && pc.busy.Answered? && !pc.busy.again
  {
    hide Exec;
    StoreSeenExactly(run, k, m);
    StepOfRun(run, j);
  }

  /** A close does not always wake the caller it waits for: the flag it stored is lost when another
      thread enters between the store and the close's own locking.  Here the close of thread 2 is
      already pending, yet the busy handler of thread 1 sees a clear flag and goes on waiting. */
  lemma CloseCanBeForgotten()
    ensures var run := [Query(1), Close(2), Lock(1), Enter(1), CallHandler(1), CheckFlag(1), ReadTimeout(1), Wake(1)];
            && Possible(run)
            && PcOf(Exec(run).value, 2) == CloseWaiting
            && PcOf(Exec(run).value, 1) == Running(0, Answered(0, true))
  {
    hide Exec, Step;
    var head := [Query(1), Close(2), Lock(1)];
    var middle := [Enter(1), CallHandler(1), CheckFlag(1)];
    ForgottenUpToLock(head);
    ForgottenUpToCheck(head, Enter(1), CallHandler(1), CheckFlag(1));
    ForgottenSleep(head + middle, ReadTimeout(1), Wake(1));
    assert head + middle + [ReadTimeout(1), Wake(1)]
        == [Query(1), Close(2), Lock(1), Enter(1), CallHandler(1), CheckFlag(1), ReadTimeout(1), Wake(1)];
  }

  lemma ExecSnoc(run: seq<Action>, a: Action)
    requires Possible(run) && Step(Exec(run).value, a).Some?
    ensures Exec(run + [a]) == Step(Exec(run).value, a)
  {
    assert (run + [a])[..|run|] == run;
  }

  lemma ForgottenUpToLock(run: seq<Action>)
    requires run == [Query(1), Close(2), Lock(1)]
    ensures Possible(run)
    ensures var s := Exec(run).value;
            PcOf(s, 1) == Entering && PcOf(s, 2) == CloseWaiting && s.open && s.cancelled && s.timeout == 2000
  {
    ExecSnoc([], Query(1));
    ExecSnoc([Query(1)], Close(2));
    assert [Query(1)] + [Close(2)] == [Query(1), Close(2)];
    ExecSnoc([Query(1), Close(2)], Lock(1));
    assert [Query(1), Close(2)] + [Lock(1)] == run;
  }

  lemma ForgottenUpToCheck(run: seq<Action>, a: Action, b: Action, c: Action)
    requires Possible(run) && a == Enter(1) && b == CallHandler(1) && c == CheckFlag(1)
    requires PcOf(Exec(run).value, 1) == Entering && Exec(run).value.open
    ensures Possible(run + [a, b, c])
    ensures var s, s' := Exec(run).value, Exec(run + [a, b, c]).value;
            PcOf(s', 1) == Running(0, Armed(0)) && PcOf(s', 2) == PcOf(s, 2) && s'.timeout == s.timeout && !s'.cancelled
  {
    hide Exec;
    ExecSnoc(run, a);
    ExecSnoc(run + [a], b);
    ExecSnoc(run + [a] + [b], c);
    assert run + [a] + [b] + [c] == run + [a, b, c];
  }

  lemma ForgottenSleep(run: seq<Action>, a: Action, b: Action)
    requires Possible(run) && a == ReadTimeout(1) && b == Wake(1)
    requires var s := Exec(run).value; PcOf(s, 1) == Running(0, Armed(0)) && s.timeout == 2000 && !s.cancelled
    ensures Possible(run + [a, b])
    ensures var s, s' := Exec(run).value, Exec(run + [a, b]).value;
            PcOf(s', 1) == Running(0, Answered(0, true)) && PcOf(s', 2) == PcOf(s, 2)
  {
    hide Exec;
    WaitedElapsed(0);
    LastSafe(0);
    CodeDelayExact(0, 2000);
    ExecSnoc(run, a);
    ExecSnoc(run + [a], b);
    assert run + [a] + [b] == run + [a, b];
  }

  // ---------- Closing ----------

  /** Once a close has taken the connection it never comes back, nothing is executed any more and
      every statement call that gets the mutex answers `closed`. */
  lemma {:induction false} ClosedForGood(run: seq<Action>, i: nat, j: nat)
    requires Possible(run) && i <= j <= |run| && !Before(run, i).open
    ensures !Before(run, j).open
    ensures j < |run| ==> !run[j].Work?
    ensures j < |run| && run[j].Enter? ==> PcOf(Before(run, j + 1), run[j].t) == Replied(Closed, 0)
    decreases j
  {
    hide Exec, Step;
    if i < j {
      ClosedForGood(run, i, j - 1);
      StepOfRun(run, j - 1);
      ClosedStep(Before(run, j - 1), run[j - 1]);
    }
    if j < |run| {
      StepOfRun(run, j);
      PrefixPossible(run, j);
      RunKeepsInv(run[..j]);
      ClosedStep(Before(run, j), run[j]);
    }
  }

  lemma ClosedStep(s: State, a: Action)
    requires !s.open && Step(s, a).Some?
    ensures !Step(s, a).value.open
    ensures Inv(s) ==> !a.Work?
    ensures a.Enter? ==> PcOf(Step(s, a).value, a.t) == Replied(Closed, 0)
  {
  }

  // ---------- Inline queries ----------

  /** An inline query that finds the mutex taken answers `contended`, and the next thing its thread
      does is return that answer: it has executed nothing and left the protocol state alone. */
  lemma {:induction false} ContendedExecutesNothing(run: seq<Action>, t: Tid, i: nat, j: nat)
    requires Possible(run) && i < j <= |run|
    requires run[i] == QueryInline(t) && Before(run, i).holder != Nobody
    requires forall k | i < k < j :: run[k].t != t
    ensures Before(run, i + 1) == At(Before(run, i), t, Replied(Contended, 0))
    ensures PcOf(Before(run, j), t) == Replied(Contended, 0)
    ensures j < |run| && run[j].t == t ==> run[j] == Return(t)
    decreases j
  {
    hide Exec, Step;
    StepOfRun(run, i);
    ContendedStep(Before(run, i), t);
    if j > i + 1 {
      ContendedExecutesNothing(run, t, i, j - 1);
      StepOfRun(run, j - 1);
      OthersKeepPc(Before(run, j - 1), run[j - 1], t);
    }
    if j < |run| && run[j].t == t {
      StepOfRun(run, j);
      RepliedReturns(Before(run, j), run[j]);
    }
  }

  lemma ContendedStep(s: State, t: Tid)
    requires Step(s, QueryInline(t)).Some? && s.holder != Nobody
    ensures Step(s, QueryInline(t)).value == At(s, t, Replied(Contended, 0))
  {
  }

  lemma RepliedReturns(s: State, a: Action)
    requires Step(s, a).Some? && PcOf(s, a.t).Replied?
    ensures a == Return(a.t)
  {
  }

  // ---------- How long a statement waits ----------

  /** The current wait of a thread: how often its handler was called, and how long it slept. */
  datatype Wait = Wait(calls: nat, slept: int)

  function WaitAfter(w: Wait, s: State, a: Action, t: Tid): Wait {
    var pc := PcOf(s, t);
    if a == CallHandler(t) && pc.Running? then
      if pc.busy == NotBusy then Wait(1, 0) else w.(calls := w.calls + 1)
    else if a == Action.Wake(t) && pc.Running? && pc.busy.Asleep? then
      w.(slept := w.slept + pc.busy.delay)
    else w
  }

  function WaitOf(run: seq<Action>, t: Tid): Wait
    requires Possible(run)
  {
    if run == [] then Wait(0, 0)
    else
      var before := run[..|run| - 1];
      WaitAfter(WaitOf(before, t), Exec(before).value, run[|run| - 1], t)
  }

  /** A wait with the timeout ms: what it has slept when the handler was called `calls` times, and that
      without a cancel it gives up after the whole timeout only. */
  ghost predicate OnSchedule(s: State, t: Tid, w: Wait, ms: int) {
    var pc, whole := PcOf(s, t), if ms > 0 then ms else 0;
    pc.Running? ==>
      match pc.busy
      case NotBusy => true
      case Asked(count) => w == Wait(count + 1, Min(Waited(count), whole)) && !Overflows(count)
      case Armed(count) => w == Wait(count + 1, Min(Waited(count), whole)) && !Overflows(count)
      case Asleep(count, delay) =>
        && w.calls == count + 1 && Waited(count) + delay == Min(Waited(count + 1), whole)
        && w.slept == Waited(count) < ms && delay > 0
      case Answered(count, again) =>
        && w.calls == count + 1
        && if again then w.slept == Min(Waited(count + 1), whole) && Waited(count) < ms
           else s.cancelled || w.slept == whole
  }

  lemma CallStep(s: State, t: Tid, w: Wait, ms: i32)
    requires OnSchedule(s, t, w, ms) && Step(s, CallHandler(t)).Some? && ms <= LAST_SAFE
    ensures OnSchedule(Step(s, CallHandler(t)).value, t, WaitAfter(w, s, CallHandler(t), t), ms)
  {
    hide Waited;
    var pc := PcOf(s, t);
    WaitedElapsed(0);
    LastSafe(0);
    if pc.busy.Answered? {
      var count := pc.busy.count;
      LastSafe(count);
      LastSafe(count + 1);
      if count >= 42949679 {
        WaitedGrows(42949679, count);
      }
    }
  }

  lemma TimeoutStep(s: State, t: Tid, w: Wait, ms: i32)
    requires OnSchedule(s, t, w, ms) && Step(s, ReadTimeout(t)).Some? && s.timeout == ms
    ensures OnSchedule(Step(s, ReadTimeout(t)).value, t, w, ms)
  {
    hide Waited, CodeDelay;
    var count := PcOf(s, t).busy.count;
    CodeDelayExact(count, ms);
    WaitedNext(count);
    WaitedGrows(0, count);
    WaitedElapsed(0);
  }

  lemma OtherStep(s: State, a: Action, t: Tid, w: Wait, ms: i32)
    requires Inv(s) && OnSchedule(s, t, w, ms) && Step(s, a).Some?
    requires a != CallHandler(t) && a != ReadTimeout(t)
    ensures OnSchedule(Step(s, a).value, t, WaitAfter(w, s, a, t), ms)
  {
    hide Waited, CodeDelay, Overflows;
    if a.t != t {
      OthersKeepPc(s, a, t);
      if PcOf(s, t).Running? {
        FlagStep(s, a, t);
      }
    }
  }

  /** In every run: while each read of the timeout by thread t finds the same ms, at most 2147483628, its
      waits for a lock follow the schedule.  A handler that gave up with a clear flag has slept exactly
      the timeout. */
  lemma {:induction false} WaitsOnSchedule(run: seq<Action>, t: Tid, ms: i32)
    requires Possible(run) && ms <= LAST_SAFE
    requires forall i | 0 <= i < |run| && run[i] == ReadTimeout(t) :: Before(run, i).timeout == ms
    ensures OnSchedule(Exec(run).value, t, WaitOf(run, t), ms)
  {
    hide Step, OnSchedule;
    if run == [] {
      NotWaiting(t, ms);
    } else {
      var n := |run| - 1;
      var before, a := run[..n], run[n];
      var s := Exec(before).value;
      forall i | 0 <= i < n && before[i] == ReadTimeout(t) ensures Before(before, i).timeout == ms {
        assert before[..i] == run[..i] && run[i] == before[i];
      }
      WaitsOnSchedule(before, t, ms);
      RunKeepsInv(before);
      if a == CallHandler(t) {
        CallStep(s, t, WaitOf(before, t), ms);
      } else if a == ReadTimeout(t) {
        assert Before(run, n) == s;
        TimeoutStep(s, t, WaitOf(before, t), ms);
      } else {
        OtherStep(s, a, t, WaitOf(before, t), ms);
      }
    }
  }

  lemma NotWaiting(t: Tid, ms: i32)
    ensures OnSchedule(START, t, Wait(0, 0), ms)
  {
  }
}
