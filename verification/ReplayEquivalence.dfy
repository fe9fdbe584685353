/** The replay theorem: the bytes sent to the native process make it do what the driver and the
    connection do, exactly when every operation reached meets a guard; and a guard on the captured list
    alone decides it beforehand. */
module ReplayEquivalence {
  import opened Wrappers
  import opened Bytes
  import opened Wire
  import opened StatementTable
  import opened Replay

  predicate AllSupported(cs: seq<Captured>) {
    forall c <- cs :: Supported(c)
  }

  /** `raws` is the decoded form of `cs`, operation by operation. */
  predicate AllDecoded<Db>(e: Engine<Db>, cs: seq<Captured>, raws: seq<RawOp>, slots: seq<Slot>)
    requires AllSupported(cs)
  {
    |cs| == |raws| && forall i | 0 <= i < |cs| :: Decoded(e, cs[i], raws[i], slots)
  }

  /** The driver operations of supported captures. */
  function DriverOpsOf(cs: seq<Captured>): (ops: seq<DriverOp>)
    requires AllSupported(cs)
    ensures |ops| == |cs|
  {
    if cs == [] then [] else [DriverOpOf(cs[0])] + DriverOpsOf(cs[1..])
  }

  lemma {:induction false} DriverOpsAre(cs: seq<Captured>)
    requires AllSupported(cs)
    ensures DriverOps(cs) == Some(DriverOpsOf(cs))
  {
    if cs != [] {
      DriverOpsAre(cs[1..]);
      assert Supported(cs[0]);
    }
  }

  lemma DecodedIsRunnable<Db>(e: Engine<Db>, cs: seq<Captured>, raws: seq<RawOp>, slots: seq<Slot>)
    requires AllSupported(cs) && AllDecoded(e, cs, raws, slots)
    ensures Runnable(raws, slots)
  {
    forall raw | raw in raws ensures raw.RawStmt? ==> raw.id < |slots| && slots[raw.id].Prepared? {
      var i :| 0 <= i < |raws| && raws[i] == raw;
      assert Decoded(e, cs[i], raws[i], slots);
    }
  }

  lemma DecodedInSameTable<Db>(e: Engine<Db>, cs: seq<Captured>, raws: seq<RawOp>, a: seq<Slot>, b: seq<Slot>)
    requires AllSupported(cs) && AllDecoded(e, cs, raws, a) && SameStatements(a, b)
    ensures AllDecoded(e, cs, raws, b)
  {
    forall i | 0 <= i < |cs| ensures Decoded(e, cs[i], raws[i], b) {
      assert Decoded(e, cs[i], raws[i], a);
    }
  }

  lemma {:induction false} RunOpsOnlyAppends<Db>(e: Engine<Db>, s: Native<Db>, ops: seq<RawOp>)
    requires Runnable(ops, s.slots)
    ensures s.issued <= RunOps(e, s, ops).0.issued
    ensures RunOps(e, s, ops).1 == Fine ==> RunOps(e, s, ops).0.executed == s.executed + |ops|
    decreases |ops|
  {
    if ops != [] {
      assert Runnable([ops[0]], s.slots) by { assert ops[0] in ops; }
      RunOpKeepsStatements(e, s, ops[0]);
      var (s', failure) := RunOp(e, s, ops[0]);
      if failure == Fine {
        RunOpsOnlyAppends(e, s', ops[1..]);
      }
    }
  }

  lemma {:induction false} RunDriverOpsOnlyAppends<Db>(e: Engine<Db>, d: Driver<Db>, ops: seq<DriverOp>)
    ensures d.issued <= RunDriverOps(e, d, ops).issued
    decreases |ops|
  {
    if ops != [] && d.ok {
      RunDriverOpsOnlyAppends(e, RunDriverOp(e, d, ops[0]), ops[1..]);
    }
  }

  /** Every operation the driver reaches meets the guard. */
  predicate ReachedAgreeable<Db>(e: Engine<Db>, d: Driver<Db>, cs: seq<Captured>)
    requires AllSupported(cs)
    decreases |cs|
  {
    cs == [] || !d.ok
    || (Agreeable(e, cs[0]) && ReachedAgreeable(e, RunDriverOp(e, d, DriverOpOf(cs[0])), cs[1..]))
  }

  /** The two interpreters issue the same statements exactly when every operation reached meets the
      guard; then they also end in the same database, with the same rows, and fail together. */
  lemma {:induction false} RunsAgreeExactly<Db>(e: Engine<Db>, s: Native<Db>, d: Driver<Db>,
                                                cs: seq<Captured>, raws: seq<RawOp>)
    requires AllSupported(cs) && AllDecoded(e, cs, raws, s.slots)
    requires Aligned(s, d) && d.ok
    ensures Runnable(raws, s.slots)
    ensures var (s', failure) := RunOps(e, s, raws);
            var d' := RunDriverOps(e, d, DriverOpsOf(cs));
            && (s'.issued == d'.issued <==> ReachedAgreeable(e, d, cs))
            && (ReachedAgreeable(e, d, cs) ==> Aligned(s', d') && (failure == Fine <==> d'.ok))
    decreases |cs|
  {
    DecodedIsRunnable(e, cs, raws, s.slots);
    hide RunOp, RunDriverOp, Decoded, Runnable, SameStatements, Agreeable;
    if cs != [] {
      var c, raw := cs[0], raws[0];
      assert Supported(c) && Decoded(e, c, raw, s.slots);
      assert Runnable([raw], s.slots) by { DecodedIsRunnable(e, [c], [raw], s.slots); }
      RunOpKeepsStatements(e, s, raw);
      var (s1, failure) := RunOp(e, s, raw);
      var d1 := RunDriverOp(e, d, DriverOpOf(c));
      assert AllDecoded(e, cs[1..], raws[1..], s.slots);
      DecodedInSameTable(e, cs[1..], raws[1..], s.slots, s1.slots);
      DecodedIsRunnable(e, cs[1..], raws[1..], s1.slots);
      if Agreeable(e, c) {
        AgreeableStep(e, s, d, c, raw);
        if d1.ok {
          RunsAgreeExactly(e, s1, d1, cs[1..], raws[1..]);
        }
      } else {
        OtherStepDiverges(e, s, d, c, raw);
        RunDriverOpsOnlyAppends(e, d1, DriverOpsOf(cs[1..]));
        RunOpsOnlyAppends(e, s1, raws[1..]);
      }
    }
  }

  // ---------- From the captured list to the decoded list ----------

  /** Field widths. */
  predicate InWidths(c: Captured) {
    match c
    case CapturedExec(sql) => |sql| < 0x1_0000_0000
    case CapturedStmt(_, _, params, _) => |params| < 0x1_0000 && forall t <- params :: FitsTerm(t)
  }

  predicate AllInWidths(cs: seq<Captured>) {
    forall c <- cs :: InWidths(c)
  }

  /** SQL text that compiles to no statement at all. */
  predicate Blank<Db>(e: Engine<Db>, c: Captured) {
    c.CapturedStmt? && e.blank(c.sql)
  }

  predicate NoneBlank<Db>(e: Engine<Db>, cs: seq<Captured>) {
    forall c <- cs :: !Blank(e, c)
  }

  /** The registry names what was interned earlier for ever. */
  lemma HeldSlot<Db>(e: Engine<Db>, t: Table, id: nat, sql: bytes)
    requires InStep(e, t) && id < |t.names| && t.names[id] == sql && !e.blank(sql)
    ensures id < |t.slots| && Holds(e, t.slots[id], sql)
    ensures id in LiveIds(t.slots)
  {
    hide IsCapacity, IdsInOrder;
    assert Holds(e, t.slots[id], t.names[id]);
  }

  /** `op` is the request operation of `c`, and its statement id is right in table `t`. */
  predicate Matches(t: Table, c: Captured, op: Op) {
    match c
    case CapturedExec(sql) => op == Exec(sql)
    case CapturedStmt(query, sql, params, _) =>
      op.Stmt? && op.id < |t.names| && t.names[op.id] == sql && op == Stmt(query, op.id, params)
  }

  predicate AllMatch(t: Table, cs: seq<Captured>, ops: seq<Op>) {
    |cs| == |ops| && forall i | 0 <= i < |cs| :: Matches(t, cs[i], ops[i])
  }

  lemma AllMatchCons(t: Table, c: Captured, op: Op, cs: seq<Captured>, ops: seq<Op>)
    requires Matches(t, c, op) && AllMatch(t, cs, ops)
    ensures AllMatch(t, [c] + cs, [op] + ops)
  {
    hide Matches;
  }

  /** Building the request interns every statement once and keeps the table in step. */
  lemma {:induction false} NativeOpsMatch<Db>(e: Engine<Db>, db: Db, t: Table, cs: seq<Captured>)
    requires |t.registry| + |cs| <= 0x8000_0000 && InStep(e, t)
    ensures var (ops, t') := NativeOps(e, db, t, cs);
            && InStep(e, t') && t.names <= t'.names && |t'.names| <= |t.names| + |cs|
            && (ops.Some? ==> AllMatch(t', cs, ops.value))
    decreases |cs|
  {
    assert |t.names| == |t.registry|;
    hide InStep, Intern, AllMatch;
    if cs == [] {
      EmptyMatch(t);
    } else {
      var c := cs[0];
      assert cs == [c] + cs[1..];
      match c {
        case CapturedExec(sql) =>
          NativeOpsMatch(e, db, t, cs[1..]);
          var (ops, t') := NativeOps(e, db, t, cs[1..]);
          if ops.Some? {
            AllMatchCons(t', c, Exec(sql), cs[1..], ops.value);
          }
        case CapturedStmt(query, sql, params, _) =>
          InternedOnce(e, t, sql, e.prepare(db, sql));
          var (id, t1) := Intern(e, t, sql, e.prepare(db, sql));
          if id.Some? {
            NativeOpsMatch(e, db, t1, cs[1..]);
            var (ops, t') := NativeOps(e, db, t1, cs[1..]);
            if ops.Some? {
              assert t'.names[id.value] == sql;
              AllMatchCons(t', c, Stmt(query, id.value, params), cs[1..], ops.value);
            }
          }
      }
    }
  }

  lemma InternedOnce<Db>(e: Engine<Db>, t: Table, sql: bytes, ok: bool)
    requires InStep(e, t) && |t.registry| < 0x8000_0000
    ensures var (id, t') := Intern(e, t, sql, ok);
            && InStep(e, t') && t.names <= t'.names
            && |t'.names| == |t'.registry| <= |t.registry| + 1 && |t.names| == |t.registry|
            && (id.Some? ==> id.value < |t'.names| && t'.names[id.value] == sql)
  {
    hide Intern, InStep;
    InternKeepsStep(e, t, sql, ok);
    NamesCountIds(e, t);
    NamesCountIds(e, Intern(e, t, sql, ok).1);
  }

  lemma EmptyMatch(t: Table)
    ensures AllMatch(t, [], [])
  {
  }

  lemma NamesCountIds<Db>(e: Engine<Db>, t: Table)
    requires InStep(e, t)
    ensures |t.names| == |t.registry|
  {
  }

  /** A matching operation is within the field widths; and unless its SQL is blank it is decoded as an
      operation on a live statement of the right SQL. */
  lemma MatchDecodes<Db>(e: Engine<Db>, t: Table, c: Captured, op: Op)
    requires InStep(e, t) && InWidths(c) && |t.names| <= 0x8000_0000 && Matches(t, c, op)
    ensures Supported(c) && Encodable(op)
    ensures op.Stmt? ==> Sendable(op, {op.id}) && (op.id in LiveIds(t.slots) <==> !Blank(e, c))
    ensures op.Exec? ==> Sendable(op, {})
    ensures !Blank(e, c) ==> Sendable(op, LiveIds(t.slots)) && Decoded(e, c, WireOp(op), t.slots)
  {
    if op.Stmt? {
      SlotOf(e, t, op.id, c.sql);
      hide InStep, LiveIds, Holds;
      assert forall p <- c.params :: FitsTerm(p);
      assert forall p <- c.params :: !p.Other?;
    }
  }

  lemma SlotOf<Db>(e: Engine<Db>, t: Table, id: nat, sql: bytes)
    requires InStep(e, t) && id < |t.names| && t.names[id] == sql
    ensures id in LiveIds(t.slots) <==> !e.blank(sql)
    ensures !e.blank(sql) ==> id < |t.slots| && Holds(e, t.slots[id], sql)
  {
    hide IsCapacity, IdsInOrder;
    if !e.blank(sql) {
      HeldSlot(e, t, id, sql);
    } else {
      assert t.slots[id] == NoStatement;
    }
  }

  /** The ids that the statement operations name. */
  function NamedIds(ops: seq<Op>): set<nat> {
    set op | op in ops && op.Stmt? :: op.id
  }

  lemma SendableMore(op: Op, a: set<nat>, b: set<nat>)
    requires Sendable(op, a) && a <= b
    ensures Sendable(op, b)
  {
  }

  /** What is sent fits the wire, and against enough live slots it comes back. */
  lemma RequestSendable<Db>(e: Engine<Db>, t: Table, cs: seq<Captured>, ops: seq<Op>, live: set<nat>)
    requires InStep(e, t) && |t.names| <= 0x8000_0000 && AllMatch(t, cs, ops) && AllInWidths(cs)
    requires NamedIds(ops) <= live
    ensures forall op <- ops :: Encodable(op) && Sendable(op, live)
  {
    hide InStep, InWidths, Supported, Encodable, Sendable, Decoded, LiveIds, Matches, NamedIds;
    forall op | op in ops ensures Encodable(op) && Sendable(op, live) {
      var i :| 0 <= i < |ops| && ops[i] == op;
      assert cs[i] in cs;
      MatchDecodes(e, t, cs[i], op);
      NamedHas(ops, op);
      SendableMore(op, if op.Stmt? then {op.id} else {}, live);
    }
  }

  lemma NamedHas(ops: seq<Op>, op: Op)
    requires op in ops
    ensures op.Stmt? ==> op.id in NamedIds(ops)
  {
  }

  /** The process accepts the request built from a captured list within the field widths if and only if
      no captured statement's SQL is blank; and then it decodes the captured operations. */
  lemma RequestDecodes<Db>(e: Engine<Db>, db: Db, t: Table, cs: seq<Captured>)
    requires |t.registry| + |cs| <= 0x8000_0000 && InStep(e, t) && AllInWidths(cs)
    requires NativeOps(e, db, t, cs).0.Some?
    ensures AllSupported(cs)
    ensures var (ops, t') := NativeOps(e, db, t, cs);
            var live := LiveIds(t'.slots);
            && (forall op <- ops.value :: Encodable(op))
            && var request := EncodeRun(ops.value);
               && (DecodeRun(request[1..], live).0.Some? <==> NoneBlank(e, cs))
               && (NoneBlank(e, cs) ==>
                     && DecodeRun(request[1..], live)
                        == (Some(WireOps(ops.value)), Wire.Cursor(|request| - 1, false))
                     && AllDecoded(e, cs, WireOps(ops.value), t'.slots))
  {
    NativeOpsMatch(e, db, t, cs);
    NamesCountIds(e, t);
    var (some, t') := NativeOps(e, db, t, cs);
    var ops := some.value;
    hide InStep, NativeOps, DecodeRun, Supported, Encodable, LiveIds, AllMatch, AllInWidths, AllDecoded;
    RequestFits(e, t', cs, ops);
    if NoneBlank(e, cs) {
      RequestAccepted(e, t', cs, ops);
    } else {
      RequestRefused(e, t', cs, ops);
    }
  }

  lemma RequestFits<Db>(e: Engine<Db>, t: Table, cs: seq<Captured>, ops: seq<Op>)
    requires InStep(e, t) && |t.names| <= 0x8000_0000 && AllMatch(t, cs, ops) && AllInWidths(cs)
    ensures AllSupported(cs) && forall op <- ops :: Encodable(op)
  {
    hide InStep, InWidths, Supported, Encodable, Sendable, Decoded, LiveIds, Matches, Blank;
    forall i | 0 <= i < |cs| ensures Supported(cs[i]) && Encodable(ops[i]) {
      assert cs[i] in cs;
      MatchDecodes(e, t, cs[i], ops[i]);
    }
  }

  /** Without blank SQL every operation names a live slot. */
  lemma RequestAccepted<Db>(e: Engine<Db>, t: Table, cs: seq<Captured>, ops: seq<Op>)
    requires InStep(e, t) && |t.names| <= 0x8000_0000 && AllMatch(t, cs, ops) && AllInWidths(cs)
    requires |ops| < 0x1_0000_0000 && NoneBlank(e, cs)
    ensures AllSupported(cs) && forall op <- ops :: Encodable(op)
    ensures DecodeRun(EncodeRun(ops)[1..], LiveIds(t.slots))
         == (Some(WireOps(ops)), Wire.Cursor(|EncodeRun(ops)| - 1, false))
    ensures AllDecoded(e, cs, WireOps(ops), t.slots)
  {
    hide InStep, InWidths, Supported, Encodable, Sendable, Decoded, LiveIds, Matches, DecodeRun, Blank;
    RequestFits(e, t, cs, ops);
    forall i | 0 <= i < |cs|
      ensures Sendable(ops[i], LiveIds(t.slots)) && Decoded(e, cs[i], WireOp(ops[i]), t.slots)
    {
      assert cs[i] in cs;
      MatchDecodes(e, t, cs[i], ops[i]);
    }
    WireRoundTrip(ops, LiveIds(t.slots));
  }

  /** A blank statement's slot is null, and the decoder refuses the whole request for it. */
  lemma RequestRefused<Db>(e: Engine<Db>, t: Table, cs: seq<Captured>, ops: seq<Op>)
    requires InStep(e, t) && |t.names| <= 0x8000_0000 && AllMatch(t, cs, ops) && AllInWidths(cs)
    requires |ops| < 0x1_0000_0000 && !NoneBlank(e, cs)
    ensures forall op <- ops :: Encodable(op)
    ensures DecodeRun(EncodeRun(ops)[1..], LiveIds(t.slots)).0.None?
  {
    hide InStep, InWidths, Supported, Encodable, Sendable, Decoded, LiveIds, Matches, NamedIds, DecodeRun, Blank;
    var live := LiveIds(t.slots);
    var more := live + NamedIds(ops);
    RequestSendable(e, t, cs, ops, more);
    WireRoundTrip(ops, more);
    var data := EncodeRun(ops)[1..];
    FewerLive(data, live, more);
    var c :| c in cs && Blank(e, c);
    var i :| 0 <= i < |cs| && cs[i] == c;
    MatchDecodes(e, t, c, ops[i]);
    BlankIsNamed(e, t, c, ops, i, live);
  }

  lemma BlankIsNamed<Db>(e: Engine<Db>, t: Table, c: Captured, ops: seq<Op>, i: nat, live: set<nat>)
    requires i < |ops| && Matches(t, c, ops[i]) && Blank(e, c)
    requires ops[i].Stmt? ==> ops[i].id !in live
    requires forall op <- ops :: Encodable(op)
    ensures !Wire.Names(WireOps(ops), live)
  {
    hide Encodable, WireValues;
    var raws := WireOps(ops);
    assert raws[i] == WireOp(ops[i]);
    assert raws[i] in raws;
  }

  // ---------- Main theorem ----------

  /** Replay equivalence.  Take any table in step with its registry, build and encode the request of
      a captured list, and decode it in the native process, whose slots may hold any leftovers of
      earlier runs.  The request is accepted exactly when no captured SQL is blank.  Then the native run
      and the driver run (and so the connection run) from the same database issue the same SQL with the
      same values exactly when every operation reached meets the guard `Agreeable`; and then they end in
      the same database, report the same rows (modulo 2^64 on the wire) and fail at the same point. */
  lemma ReplayEquivalence<Db>(e: Engine<Db>, db0: Db, db: Db, t: Table, cs: seq<Captured>, slots: seq<Slot>)
    requires |t.registry| + |cs| <= 0x8000_0000 && InStep(e, t) && AllInWidths(cs)
    requires NativeOps(e, db0, t, cs).0.Some? && SameStatements(NativeOps(e, db0, t, cs).1.slots, slots)
    ensures AllSupported(cs) && DriverOps(cs).Some?
    ensures forall op <- NativeOps(e, db0, t, cs).0.value :: Encodable(op)
    ensures var request := EncodeRun(NativeOps(e, db0, t, cs).0.value);
            var (raws, cursor) := DecodeRun(request[1..], LiveIds(slots));
            var start := Driver(db, 0, true, []);
            var driver := RunDriverOps(e, start, DriverOps(cs).value);
            && RunConnectionOps(e, start, cs) == driver
            && (raws.Some? <==> NoneBlank(e, cs))
            && (raws.Some? ==>
                  && cursor == Wire.Cursor(|request| - 1, false)
                  && Runnable(raws.value, slots)
                  && var (native, failure) := RunOps(e, Native(db, slots, 0, 0, []), raws.value);
                     && (native.issued == driver.issued <==> ReachedAgreeable(e, start, cs))
                     && (ReachedAgreeable(e, start, cs) ==>
                           && native.db == driver.db
                           && native.rows == driver.rows % U64
                           && (failure == Fine <==> driver.ok)
                           && (failure == Fine ==> native.executed == |cs|)))
  {
    RequestDecodes(e, db0, t, cs);
    var (ops, t') := NativeOps(e, db0, t, cs);
    SameLiveIds(t'.slots, slots);
    var raws := WireOps(ops.value);
    var s := Native(db, slots, 0, 0, []);
    var start := Driver(db, 0, true, []);
    DriverOpsAre(cs);
    ConnectionMatchesDriver(e, start, cs);
    hide NativeOps, Decoded, DecodeRun, InStep;
    if NoneBlank(e, cs) {
      DecodedInSameTable(e, cs, raws, t'.slots, slots);
      RunsAgreeExactly(e, s, start, cs, raws);
      RunOpsOnlyAppends(e, s, raws);
    }
  }

  // ---------- A guard on the captured list alone ----------

  /** Both sides refuse a statement with more parameters than placeholders, which ends the replay. */
  predicate Refused<Db>(e: Engine<Db>, c: Captured) {
    c.CapturedStmt? && |c.params| > e.arity(c.sql)
  }

  /** The operations up to the first that is refused meet the guard of an operation: a condition on
      parameters and placeholder counts. */
  predicate Guard<Db>(e: Engine<Db>, cs: seq<Captured>) {
    cs == [] || (Agreeable(e, cs[0]) && (Refused(e, cs[0]) || Guard(e, cs[1..])))
  }

  /** No SQL that gets to run fails: the replay stops early, if at all, because parameters are refused. */
  predicate NoSqlFails<Db>(e: Engine<Db>, d: Driver<Db>, cs: seq<Captured>)
    requires AllSupported(cs)
    decreases |cs|
  {
    cs == [] || !d.ok
    || (var d1 := RunDriverOp(e, d, DriverOpOf(cs[0]));
        (d1.ok || d1.issued == d.issued) && NoSqlFails(e, d1, cs[1..]))
  }

  lemma RefusedStops<Db>(e: Engine<Db>, d: Driver<Db>, c: Captured)
    requires Supported(c) && Refused(e, c)
    ensures !RunDriverOp(e, d, DriverOpOf(c)).ok
  {
  }

  /** The SQL of an agreeable operation runs unless it is refused. */
  lemma IssuedOrRefused<Db>(e: Engine<Db>, d: Driver<Db>, c: Captured)
    requires Supported(c) && Agreeable(e, c) && !Refused(e, c)
    ensures RunDriverOp(e, d, DriverOpOf(c)).issued != d.issued
  {
    if c.CapturedStmt? {
      NifBindExact(e.arity(c.sql), DriverParams(c.params).value);
      BoundValuesAgreeExactly(c.params);
    }
  }

  /** The guard on the list suffices for every database, and is needed by every replay whose SQL does not
      fail. */
  lemma {:induction false} GuardDecidesReached<Db>(e: Engine<Db>, d: Driver<Db>, cs: seq<Captured>)
    requires AllSupported(cs) && d.ok
    ensures Guard(e, cs) ==> ReachedAgreeable(e, d, cs)
    ensures ReachedAgreeable(e, d, cs) && NoSqlFails(e, d, cs) ==> Guard(e, cs)
    decreases |cs|
  {
    hide RunDriverOp, Agreeable;
    if cs != [] {
      var c := cs[0];
      assert Supported(c);
      var d1 := RunDriverOp(e, d, DriverOpOf(c));
      if Refused(e, c) {
        RefusedStops(e, d, c);
      } else if Agreeable(e, c) {
        IssuedOrRefused(e, d, c);
      }
      if d1.ok {
        GuardDecidesReached(e, d1, cs[1..]);
      }
    }
  }

  /** A replay that succeeds is one whose SQL does not fail. */
  lemma {:induction false} SuccessFailsNoSql<Db>(e: Engine<Db>, d: Driver<Db>, cs: seq<Captured>)
    requires AllSupported(cs) && RunDriverOps(e, d, DriverOpsOf(cs)).ok
    ensures NoSqlFails(e, d, cs)
    decreases |cs|
  {
    hide RunDriverOp;
    if cs != [] && d.ok {
      assert Supported(cs[0]);
      assert DriverOpsOf(cs)[1..] == DriverOpsOf(cs[1..]);
      SuccessFailsNoSql(e, RunDriverOp(e, d, DriverOpOf(cs[0])), cs[1..]);
    }
  }

  /** Replay equivalence, decided beforehand: for a captured list without blank SQL, native and driver
      replays issue the same SQL with the same values from every database if the guard on the list
      holds; and a driver replay whose SQL does not fail, a successful one above all, agrees with the
      native one only if it holds. */
  lemma GuardDecides<Db>(e: Engine<Db>, db0: Db, db: Db, t: Table, cs: seq<Captured>, slots: seq<Slot>)
    requires |t.registry| + |cs| <= 0x8000_0000 && InStep(e, t) && AllInWidths(cs) && NoneBlank(e, cs)
    requires NativeOps(e, db0, t, cs).0.Some? && SameStatements(NativeOps(e, db0, t, cs).1.slots, slots)
    ensures AllSupported(cs) && DriverOps(cs).Some?
    ensures forall op <- NativeOps(e, db0, t, cs).0.value :: Encodable(op)
    ensures var raws := DecodeRun(EncodeRun(NativeOps(e, db0, t, cs).0.value)[1..], LiveIds(slots)).0;
            var start := Driver(db, 0, true, []);
            && raws.Some? && Runnable(raws.value, slots)
            && var native := RunOps(e, Native(db, slots, 0, 0, []), raws.value).0;
               var driver := RunDriverOps(e, start, DriverOps(cs).value);
               && (Guard(e, cs) ==> native.issued == driver.issued && native.db == driver.db
                                    && native.rows == driver.rows % U64)
               && (driver.ok ==> NoSqlFails(e, start, cs))
               && (NoSqlFails(e, start, cs) ==> (native.issued == driver.issued <==> Guard(e, cs)))
  {
    ReplayEquivalence(e, db0, db, t, cs, slots);
    DriverOpsAre(cs);
    hide NativeOps, InStep, DecodeRun, RunOps, RunDriverOps, Guard, ReachedAgreeable, NoSqlFails;
    var start := Driver(db, 0, true, []);
    GuardDecidesReached(e, start, cs);
    if RunDriverOps(e, start, DriverOpsOf(cs)).ok {
      SuccessFailsNoSql(e, start, cs);
    }
  }

  lemma SameLiveIds(a: seq<Slot>, b: seq<Slot>)
    requires SameStatements(a, b)
    ensures LiveIds(a) == LiveIds(b)
  {
  }

  // ---------- Row totals ----------

  /** `expected_rows` of a captured list. */
  function ExpectedRows(cs: seq<Captured>): nat {
    if cs == [] then 0
    else (if cs[0].CapturedStmt? && cs[0].query then cs[0].rows else 0) + ExpectedRows(cs[1..])
  }

  /** Every query of the driver run returns the row count the capture recorded. */
  predicate Reproduces<Db>(e: Engine<Db>, d: Driver<Db>, cs: seq<Captured>)
    requires AllSupported(cs)
    decreases |cs|
  {
    cs == [] || !d.ok
    || (&& (cs[0].CapturedStmt? && cs[0].query ==>
              var op := DriverOpOf(cs[0]); Query(e, d, op.sql, op.params).1 == cs[0].rows)
        && Reproduces(e, RunDriverOp(e, d, DriverOpOf(cs[0])), cs[1..]))
  }

  lemma {:induction false} DriverTotals<Db>(e: Engine<Db>, d: Driver<Db>, cs: seq<Captured>)
    requires AllSupported(cs) && Reproduces(e, d, cs)
    ensures var d' := RunDriverOps(e, d, DriverOpsOf(cs));
            d'.ok ==> d'.rows == d.rows + ExpectedRows(cs)
    decreases |cs|
  {
    hide NifBind, DriverParams;
    if cs != [] && d.ok {
      assert Supported(cs[0]);
      DriverTotals(e, RunDriverOp(e, d, DriverOpOf(cs[0])), cs[1..]);
    }
  }

  /** If each query returns its captured row count and the replay succeeds, the total every replay
      reports is the expected one, so the row check cannot raise; the native one if its request is
      accepted, which is when no captured SQL is blank. */
  lemma ReplayTotals<Db>(e: Engine<Db>, db0: Db, db: Db, t: Table, cs: seq<Captured>, slots: seq<Slot>)
    requires |t.registry| + |cs| <= 0x8000_0000 && InStep(e, t) && AllInWidths(cs)
    requires NativeOps(e, db0, t, cs).0.Some? && SameStatements(NativeOps(e, db0, t, cs).1.slots, slots)
    requires AllSupported(cs)
    requires var start := Driver(db, 0, true, []);
             Reproduces(e, start, cs) && RunConnectionOps(e, start, cs).ok
    ensures RunConnectionOps(e, Driver(db, 0, true, []), cs).rows == ExpectedRows(cs)
    ensures forall op <- NativeOps(e, db0, t, cs).0.value :: Encodable(op)
    ensures var raws := DecodeRun(EncodeRun(NativeOps(e, db0, t, cs).0.value)[1..], LiveIds(slots)).0;
            && (raws.Some? <==> NoneBlank(e, cs))
            && (raws.Some? ==> Runnable(raws.value, slots))
            && (raws.Some? && ReachedAgreeable(e, Driver(db, 0, true, []), cs) ==>
                  RunOps(e, Native(db, slots, 0, 0, []), raws.value).0.rows == ExpectedRows(cs) % U64)
  {
    ReplayEquivalence(e, db0, db, t, cs, slots);
    DriverOpsAre(cs);
    hide NativeOps, InStep, DecodeRun, RunOps, ReachedAgreeable, LiveIds;
    DriverTotals(e, Driver(db, 0, true, []), cs);
  }
}
