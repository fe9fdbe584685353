/** The SQLite connection as it is written: an optional database, a cancel flag and a busy timeout,
    changed in place.  A call that no other thread interrupts is proved to be a run of the protocol's
    steps, and a query to do what the replay theorem assumes of the driver. */
module SqliteConnection {
  import opened Wrappers
  import opened Bytes
  import Wire
  import opened StatementTable
  import Replay
  import opened BusyHandler
  import CP = CancelProtocol

  /** The state after some steps in order. */
  function AfterAll(s: CP.State, actions: seq<CP.Action>): Option<CP.State>
    decreases |actions|
  {
    if actions == [] then Some(s)
    else
      var next := CP.Step(s, actions[0]);
      if next.None? then None else AfterAll(next.value, actions[1..])
  }

  /** SQL execution on an open connection, as the replay sees it. */
  function QueryAlone<Db>(e: Engine<Db>, db: Db, sql: bytes, params: seq<Wire.Term>): (Replay.Driver<Db>, nat) {
    Replay.Query(e, Replay.Driver(db, 0, true, []), sql, params)
  }

  /** What the busy handler does on a call: return 0, or sleep so many milliseconds. */
  datatype Answer = GiveUp | SleepFor(delay: nat)

  class Conn<Db> {
    const engine: Engine<Db>
    var db: Option<Db>
    var holder: CP.Holder     // of the mutex around db
    var cancelled: bool
    var busy_timeout_ms: i32

    constructor (engine: Engine<Db>, db: Db)
      ensures this.engine == engine && this.db == Some(db)
      ensures Quiet(0) == CP.START.(pcs := map[0 := CP.Idle])
    {
      this.engine := engine;
      this.db := Some(db);
      holder := CP.Nobody;
      cancelled, busy_timeout_ms := false, 2000;
    }

    /** The protocol state while t, the thread to act next, is in no call. */
    ghost function Quiet(t: CP.Tid): CP.State
      reads this
    {
      CP.State(cancelled, busy_timeout_ms, db.Some?, holder, map[t := CP.Idle])
    }

    /** The protocol state while t runs a statement. */
    ghost function During(t: CP.Tid, work: nat, busy: CP.Busy): CP.State
      reads this
    {
      CP.State(cancelled, busy_timeout_ms, db.Some?, holder, map[t := CP.Running(work, busy)])
    }

    /** `busy_handler` up to its sleep.  Other threads may call `Cancel` and `SetBusyTimeout` before the
        sleep ends with `Wake`. */
    method Ask(calls: i32, ghost t: CP.Tid, ghost work: nat) returns (answer: Answer)
      ensures var count := if calls > 0 then calls else 0;
              && answer == (if cancelled || CodeDelay(count, busy_timeout_ms) == 0 then GiveUp
                            else SleepFor(CodeDelay(count, busy_timeout_ms)))
              && AfterAll(During(t, work, CP.Asked(count)),
                          [CP.CheckFlag(t)] + (if cancelled then [] else [CP.ReadTimeout(t)]))
                 == Some(During(t, work, if answer.GiveUp? then CP.Answered(count, false)
                                         else CP.Asleep(count, answer.delay)))
    {
      hide CodeDelay;
      ghost var count := if calls > 0 then calls else 0;
      AskSteps(During(t, work, CP.Asked(count)), t, work, count);
      if cancelled {
        return GiveUp;
      }
      var delay := Sleep(calls, busy_timeout_ms);
      answer := if delay == 0 then GiveUp else SleepFor(delay);
    }

    /** `busy_handler` after its sleep. */
    method Wake(ghost t: CP.Tid, ghost work: nat, ghost count: nat, ghost delay: int) returns (again: bool)
      ensures again == !cancelled
      ensures CP.Step(During(t, work, CP.Asleep(count, delay)), CP.Wake(t)).Some?
      ensures var s := CP.Step(During(t, work, CP.Asleep(count, delay)), CP.Wake(t)).value;
              s.(pcs := map[]) == During(t, work, CP.NotBusy).(pcs := map[])
              && CP.PcOf(s, t) == CP.Running(work, CP.Answered(count, again))
    {
      again := !cancelled;
    }

    /** `query`, when its lock is granted: `closed` without a database, otherwise the statement, with the
        flag cleared first. */
    method Query(t: CP.Tid, sql: bytes, params: seq<Wire.Term>) returns (reply: CP.Reply, rows: nat)
      requires holder == CP.Nobody
      modifies this`db, this`cancelled, this`holder
      ensures holder == CP.Nobody
      ensures old(db).None? ==> reply == CP.Closed && rows == 0 && db.None? && cancelled == old(cancelled)
      ensures old(db).Some? ==>
              var (d, count) := QueryAlone(engine, old(db).value, sql, params);
              && db == Some(d.db) && !cancelled
              && reply == (if d.ok then CP.Rows else CP.SqlError) && rows == (if d.ok then count else 0)
      ensures AfterAll(old(Quiet(t)), [CP.Query(t), CP.Lock(t)] + Inside(t, old(db).Some?, reply))
           == Some(Quiet(t))
    {
      ghost var before := Quiet(t);
      holder := CP.HeldBy(t);
      reply, rows := WithDb(sql, params);
      holder := CP.Nobody;
      LockedSteps(before, t, reply);
    }

    /** `query_inline`: tries the lock and answers `contended` when another thread holds it. */
    method QueryInline(t: CP.Tid, sql: bytes, params: seq<Wire.Term>) returns (reply: CP.Reply, rows: nat)
      modifies this`db, this`cancelled, this`holder
      ensures holder == old(holder)
      ensures holder != CP.Nobody ==>
              && reply == CP.Contended && rows == 0 && db == old(db) && cancelled == old(cancelled)
              && AfterAll(old(Quiet(t)), [CP.QueryInline(t), CP.Return(t)]) == Some(Quiet(t))
      ensures holder == CP.Nobody && old(db).None? ==>
              reply == CP.Closed && rows == 0 && db.None? && cancelled == old(cancelled)
      ensures holder == CP.Nobody && old(db).Some? ==>
              var (d, count) := QueryAlone(engine, old(db).value, sql, params);
              && db == Some(d.db) && !cancelled
              && reply == (if d.ok then CP.Rows else CP.SqlError) && rows == (if d.ok then count else 0)
      ensures holder == CP.Nobody ==>
              AfterAll(old(Quiet(t)), [CP.QueryInline(t)] + Inside(t, old(db).Some?, reply)) == Some(Quiet(t))
    {
      ghost var before := Quiet(t);
      if holder != CP.Nobody {
        ContendedSteps(before, t);
        return CP.Contended, 0;
      }
      holder := CP.HeldBy(t);
      reply, rows := WithDb(sql, params);
      holder := CP.Nobody;
      InlineSteps(before, t, reply);
    }

    method WithDb(sql: bytes, params: seq<Wire.Term>) returns (reply: CP.Reply, rows: nat)
      modifies this`db, this`cancelled
      ensures old(db).None? ==> reply == CP.Closed && rows == 0 && db.None? && cancelled == old(cancelled)
      ensures old(db).Some? ==>
              var (d, count) := QueryAlone(engine, old(db).value, sql, params);
              && db == Some(d.db) && !cancelled
              && reply == (if d.ok then CP.Rows else CP.SqlError) && rows == (if d.ok then count else 0)
    {
      if db.None? {
        return CP.Closed, 0;
      }
      cancelled := false;
      var values := Bind(engine.arity(sql), params);
      if values.None? {
        return CP.SqlError, 0;
      }
      var (after, count, ok) := engine.step(db.value, sql, values.value);
      db := Some(after);
      if ok {
        return CP.Rows, count;
      }
      return CP.SqlError, 0;
    }

    /** `bind`: the count is checked first, then each parameter in turn; any refusal binds nothing. */
    method Bind(expected: nat, params: seq<Wire.Term>) returns (values: Option<seq<Wire.Value>>)
      ensures values == Replay.NifBind(expected, params)
      ensures values.Some? <==> |params| == expected && forall t <- params :: Replay.NifValue(t).Some?
    {
      Replay.NifBindExact(expected, params);
      if |params| != expected {
        return None;
      }
      var bound := [];
      for i := 0 to |params|
        invariant |bound| == i
        invariant forall j | 0 <= j < i :: Replay.NifValue(params[j]) == Some(bound[j])
      {
        var value := Replay.NifValue(params[i]);
        if value.None? {
          assert params[i] in params;
          return None;
        }
        bound := bound + [value.value];
      }
      assert forall t <- params :: Replay.NifValue(t).Some?;
      assert bound == Replay.NifBind(expected, params).value;
      values := Some(bound);
    }

    /** `close`, when its lock is granted: takes the database out, whether or not closing it then
        succeeds. */
    method Close(t: CP.Tid, close_ok: bool) returns (reply: CP.Reply)
      requires holder == CP.Nobody
      modifies this`db, this`cancelled, this`holder
      ensures db.None? && cancelled && holder == CP.Nobody
      ensures reply == if old(db).Some? && !close_ok then CP.SqlError else CP.Ok
      ensures AfterAll(old(Quiet(t)), [CP.Close(t), CP.Lock(t)] + Taking(t, old(db).Some?, reply))
           == Some(Quiet(t))
    {
      reply := if db.Some? && !close_ok then CP.SqlError else CP.Ok;
      CloseSteps(Quiet(t), t, reply);
      cancelled := true;
      holder := CP.HeldBy(t);
      db := None;
      holder := CP.Nobody;
    }

    method Cancel(ghost t: CP.Tid)
      modifies this`cancelled
      ensures CP.Step(old(Quiet(t)), CP.Cancel(t)) == Some(Quiet(t)) && cancelled
    {
      cancelled := true;
    }

    method SetBusyTimeout(timeout_ms: i32, ghost t: CP.Tid)
      modifies this`busy_timeout_ms
      ensures CP.Step(old(Quiet(t)), CP.SetTimeout(t, timeout_ms)) == Some(Quiet(t))
      ensures busy_timeout_ms == timeout_ms
    {
      busy_timeout_ms := timeout_ms;
    }
  }

  /** How long the handler sleeps, in 32-bit arithmetic: the delays so far are summed again in every
      call. */
  method Sleep(calls: i32, timeout: i32) returns (delay: nat)
    ensures delay == CodeDelay(if calls > 0 then calls else 0, timeout)
  {
    var count := if calls > 0 then calls else 0;
    var waited: i32 := 0;
    var summed := Min(count, |DELAYS|);
    for i := 0 to summed
      invariant waited == Sum(DELAYS[..i])
    {
      assert DELAYS[..i + 1] == DELAYS[..i] + [DELAYS[i]];
      SumSnoc(DELAYS[..i], DELAYS[i]);
      PartialSum(i + 1);
      waited := Wrap(waited + DELAYS[i]);
    }
    var beyond := if count > |DELAYS| then count - |DELAYS| else 0;
    WrapSum(waited, beyond * MAX_DELAY);
    waited := Wrap(waited + Wrap(beyond * MAX_DELAY));
    assert waited == Wrap(Waited(count));
    if waited >= timeout {
      return 0;
    }
    var left := Wrap(timeout - waited);
    var scheduled: int := if count < |DELAYS| then DELAYS[count] else MAX_DELAY;
    delay := AsDuration(if scheduled < left then scheduled else left);
  }

  /** The steps of a statement call that holds the mutex. */
  function Inside(t: CP.Tid, open: bool, reply: CP.Reply): seq<CP.Action> {
    [CP.Enter(t)] + (if open then [CP.Finish(t, reply)] else []) + [CP.Return(t)]
  }

  /** One more step at the front. */
  lemma Then(s: CP.State, a: CP.Action, s': CP.State, rest: seq<CP.Action>, end: CP.State)
    requires CP.Step(s, a).Some? && AfterAll(s', rest) == Some(end)
    requires var next := CP.Step(s, a).value; next.pcs == s'.pcs && next == s'.(pcs := next.pcs)
    ensures AfterAll(s, [a] + rest) == Some(end)
  {
    assert CP.Step(s, a) == Some(s');
    assert ([a] + rest)[1..] == rest;
  }

  lemma Now(s: CP.State)
    ensures AfterAll(s, []) == Some(s)
  {
  }

  /** A protocol state in which t is idle and nobody is inside. */
  ghost predicate IsQuiet(s: CP.State, t: CP.Tid) {
    s.holder == CP.Nobody && s.pcs == map[t := CP.Idle]
  }

  function WithPc(s: CP.State, t: CP.Tid, pc: CP.Pc): CP.State {
    s.(pcs := map[t := pc])
  }

  lemma ReturnSteps(s: CP.State, t: CP.Tid, reply: CP.Reply, executed: nat)
    requires s.pcs == map[t := CP.Idle]
    ensures AfterAll(WithPc(s, t, CP.Replied(reply, executed)), [CP.Return(t)]) == Some(s)
  {
    hide AfterAll;
    Now(s);
    Then(WithPc(s, t, CP.Replied(reply, executed)), CP.Return(t), s, [], s);
    assert [CP.Return(t)] + [] == [CP.Return(t)];
  }

  lemma FinishSteps(s: CP.State, t: CP.Tid, reply: CP.Reply)
    requires s.pcs == map[t := CP.Idle] && (reply == CP.Rows || reply == CP.SqlError) && s.holder == CP.Nobody
    ensures AfterAll(WithPc(s, t, CP.Running(0, CP.NotBusy)).(holder := CP.HeldBy(t)),
                     [CP.Finish(t, reply)] + [CP.Return(t)])
         == Some(s)
  {
    hide AfterAll;
    ReturnSteps(s, t, reply, 0);
    Then(WithPc(s, t, CP.Running(0, CP.NotBusy)).(holder := CP.HeldBy(t)), CP.Finish(t, reply),
         WithPc(s, t, CP.Replied(reply, 0)), [CP.Return(t)], s);
  }

  lemma DroppedSteps(s: CP.State, t: CP.Tid, reply: CP.Reply)
    requires s.pcs == map[t := CP.Idle] && (reply == CP.Ok || reply == CP.SqlError) && s.holder == CP.Nobody
    ensures AfterAll(WithPc(s, t, CP.Dropping).(holder := CP.HeldBy(t)), [CP.Dropped(t, reply)] + [CP.Return(t)])
         == Some(s)
  {
    hide AfterAll;
    ReturnSteps(s, t, reply, 0);
    Then(WithPc(s, t, CP.Dropping).(holder := CP.HeldBy(t)), CP.Dropped(t, reply),
         WithPc(s, t, CP.Replied(reply, 0)), [CP.Return(t)], s);
  }

  lemma InsideSteps(s: CP.State, t: CP.Tid, reply: CP.Reply)
    requires IsQuiet(s, t) && (s.open ==> reply == CP.Rows || reply == CP.SqlError)
    ensures AfterAll(WithPc(s, t, CP.Entering).(holder := CP.HeldBy(t)), Inside(t, s.open, reply))
         == Some(if s.open then s.(cancelled := false) else s)
  {
    hide AfterAll;
    var end := if s.open then s.(cancelled := false) else s;
    var entering := WithPc(s, t, CP.Entering).(holder := CP.HeldBy(t));
    if s.open {
      var tail := [CP.Finish(t, reply)] + [CP.Return(t)];
      FinishSteps(end, t, reply);
      Then(entering, CP.Enter(t), WithPc(end, t, CP.Running(0, CP.NotBusy)).(holder := CP.HeldBy(t)), tail, end);
      assert Inside(t, s.open, reply) == [CP.Enter(t)] + tail;
    } else {
      ReturnSteps(s, t, CP.Closed, 0);
      Then(entering, CP.Enter(t), WithPc(s, t, CP.Replied(CP.Closed, 0)), [CP.Return(t)], s);
      assert Inside(t, s.open, reply) == [CP.Enter(t)] + [CP.Return(t)];
    }
  }

  /** An uninterrupted statement call, by way of the mutex. */
  lemma LockedSteps(s: CP.State, t: CP.Tid, reply: CP.Reply)
    requires IsQuiet(s, t) && (s.open ==> reply == CP.Rows || reply == CP.SqlError)
    ensures AfterAll(s, [CP.Query(t), CP.Lock(t)] + Inside(t, s.open, reply))
         == Some(if s.open then s.(cancelled := false) else s)
  {
    hide AfterAll, Inside;
    InsideSteps(s, t, reply);
    var end := if s.open then s.(cancelled := false) else s;
    var waiting := WithPc(s, t, CP.Waiting);
    var inside := Inside(t, s.open, reply);
    Then(waiting, CP.Lock(t), WithPc(s, t, CP.Entering).(holder := CP.HeldBy(t)), inside, end);
    Then(s, CP.Query(t), waiting, [CP.Lock(t)] + inside, end);
    assert [CP.Query(t), CP.Lock(t)] + inside == [CP.Query(t)] + ([CP.Lock(t)] + inside);
  }

  lemma InlineSteps(s: CP.State, t: CP.Tid, reply: CP.Reply)
    requires IsQuiet(s, t) && (s.open ==> reply == CP.Rows || reply == CP.SqlError)
    ensures AfterAll(s, [CP.QueryInline(t)] + Inside(t, s.open, reply))
         == Some(if s.open then s.(cancelled := false) else s)
  {
    hide AfterAll, Inside;
    InsideSteps(s, t, reply);
    var end := if s.open then s.(cancelled := false) else s;
    Then(s, CP.QueryInline(t), WithPc(s, t, CP.Entering).(holder := CP.HeldBy(t)), Inside(t, s.open, reply), end);
  }

  lemma ContendedSteps(s: CP.State, t: CP.Tid)
    requires s.holder != CP.Nobody && s.pcs == map[t := CP.Idle]
    ensures AfterAll(s, [CP.QueryInline(t), CP.Return(t)]) == Some(s)
  {
    hide AfterAll;
    Now(s);
    var replied := WithPc(s, t, CP.Replied(CP.Contended, 0));
    Then(replied, CP.Return(t), s, [], s);
    assert [CP.Return(t)] + [] == [CP.Return(t)];
    Then(s, CP.QueryInline(t), replied, [CP.Return(t)], s);
    assert [CP.QueryInline(t)] + [CP.Return(t)] == [CP.QueryInline(t), CP.Return(t)];
  }

  /** The steps of a close that holds the mutex. */
  function Taking(t: CP.Tid, open: bool, reply: CP.Reply): seq<CP.Action> {
    [CP.Take(t)] + (if open then [CP.Dropped(t, reply)] else []) + [CP.Return(t)]
  }

  lemma TakingSteps(s: CP.State, t: CP.Tid, reply: CP.Reply)
    requires s.pcs == map[t := CP.CloseEntering] && s.holder == CP.HeldBy(t)
    requires if s.open then reply == CP.Ok || reply == CP.SqlError else reply == CP.Ok
    ensures AfterAll(s, Taking(t, s.open, reply))
         == Some(WithPc(s.(open := false, holder := CP.Nobody), t, CP.Idle))
  {
    hide AfterAll;
    var end := WithPc(s.(open := false, holder := CP.Nobody), t, CP.Idle);
    if s.open {
      var tail := [CP.Dropped(t, reply)] + [CP.Return(t)];
      DroppedSteps(end, t, reply);
      Then(s, CP.Take(t), WithPc(end, t, CP.Dropping).(holder := CP.HeldBy(t)), tail, end);
      assert Taking(t, s.open, reply) == [CP.Take(t)] + tail;
    } else {
      ReturnSteps(end, t, reply, 0);
      Then(s, CP.Take(t), WithPc(end, t, CP.Replied(reply, 0)), [CP.Return(t)], end);
      assert Taking(t, s.open, reply) == [CP.Take(t)] + [CP.Return(t)];
    }
  }

  /** An uninterrupted close. */
  lemma CloseSteps(s: CP.State, t: CP.Tid, reply: CP.Reply)
    requires IsQuiet(s, t) && (if s.open then reply == CP.Ok || reply == CP.SqlError else reply == CP.Ok)
    ensures AfterAll(s, [CP.Close(t), CP.Lock(t)] + Taking(t, s.open, reply))
         == Some(s.(open := false, cancelled := true))
  {
    hide AfterAll, Taking;
    var end := s.(open := false, cancelled := true);
    var waiting := WithPc(s.(cancelled := true), t, CP.CloseWaiting);
    var entering := WithPc(waiting, t, CP.CloseEntering).(holder := CP.HeldBy(t));
    var taking := Taking(t, s.open, reply);
    TakingSteps(entering, t, reply);
    Then(waiting, CP.Lock(t), entering, taking, end);
    Then(s, CP.Close(t), waiting, [CP.Lock(t)] + taking, end);
    assert [CP.Close(t), CP.Lock(t)] + taking == [CP.Close(t)] + ([CP.Lock(t)] + taking);
  }

  function AfterAsking(count: nat, delay: int): CP.Busy {
    if delay == 0 then CP.Answered(count, false) else CP.Asleep(count, delay)
  }

  /** The steps of the busy handler up to its sleep. */
  lemma AskSteps(s: CP.State, t: CP.Tid, work: nat, count: nat)
    requires s.pcs == map[t := CP.Running(work, CP.Asked(count))]
    ensures AfterAll(s, [CP.CheckFlag(t)] + (if s.cancelled then [] else [CP.ReadTimeout(t)]))
         == Some(WithPc(s, t, CP.Running(
                   work, AfterAsking(count, if s.cancelled then 0 else CodeDelay(count, s.timeout)))))
  {
    hide AfterAll, CodeDelay;
    var delay := if s.cancelled then 0 else CodeDelay(count, s.timeout);
    var end := WithPc(s, t, CP.Running(work, AfterAsking(count, delay)));
    Now(end);
    if s.cancelled {
      Then(s, CP.CheckFlag(t), end, [], end);
    } else {
      var armed := WithPc(s, t, CP.Running(work, CP.Armed(count)));
      Then(armed, CP.ReadTimeout(t), end, [], end);
      assert [CP.ReadTimeout(t)] + [] == [CP.ReadTimeout(t)];
      Then(s, CP.CheckFlag(t), armed, [CP.ReadTimeout(t)], end);
    }
  }
}
