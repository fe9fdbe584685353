/** One captured operation list and its three replays: through the native process, through the
    driver and through the connection wrapper. */
module Replay {
  import opened Wrappers
  import opened Bytes
  import opened Wire
  import opened StatementTable

  /** What the capture recorded; `rows` is the row count of a query. */
  datatype Captured = CapturedExec(sql: bytes) | CapturedStmt(query: bool, sql: bytes, params: seq<Term>, rows: nat)

  /** What reaches SQLite. */
  datatype Issued = IssuedExec(sql: bytes) | IssuedStmt(sql: bytes, values: seq<Value>)

  const U64: nat := 0x1_0000_0000_0000_0000

  // ---------- The native process (vk_replay.c) ----------

  datatype Failure = Fine | ExecFailed | BindFailed | StepFailed

  datatype Native<Db> =
    Native(db: Db, slots: seq<Slot>, rows: nat, executed: nat, issued: seq<Issued>)

  /** `bind_params` overwrites the first placeholders and fails at the first index that does not
      exist.  Placeholders without a parameter keep what an earlier operation bound. */
  function Rebind(bound: seq<Value>, params: seq<Value>): (r: (seq<Value>, bool))
    ensures |r.0| == |bound|
  {
    if |params| <= |bound| then (params + bound[|params|..], true)
    else (params[..|bound|], false)
  }

  /** Every statement operation names a live slot. */
  predicate Runnable(ops: seq<RawOp>, slots: seq<Slot>) {
    forall op <- ops :: op.RawStmt? ==> op.id < |slots| && slots[op.id].Prepared?
  }

  function RunOp<Db>(e: Engine<Db>, s: Native<Db>, op: RawOp): (r: (Native<Db>, Failure))
    requires Runnable([op], s.slots)
  {
    match op
    case RawExec(sql) =>
      var (db, ok) := e.exec(s.db, sql);
      (s.(db := db, executed := s.executed + 1, issued := s.issued + [IssuedExec(sql)]),
       if ok then Fine else ExecFailed)
    case RawStmt(_, countRows, id, params) =>
      assert op in [op];
      var slot := s.slots[id];
      var (bound, fits) := Rebind(slot.bound, params);
      var slots := s.slots[id := slot.(bound := bound)];
      if !fits then (s.(slots := slots), BindFailed)
      else
        var (db, count, ok) := e.step(s.db, slot.sql, bound);
        (Native(db, slots, (s.rows + count * countRows as int) % U64, s.executed + 1,
                s.issued + [IssuedStmt(slot.sql, bound)]),
         if ok then Fine else StepFailed)
  }

  /** Two tables with the same statements in the same slots. */
  predicate SameStatements(a: seq<Slot>, b: seq<Slot>) {
    && |a| == |b|
    && forall i | 0 <= i < |a| ::
         if a[i].Prepared?
         then b[i].Prepared? && a[i].sql == b[i].sql && |a[i].bound| == |b[i].bound|
         else b[i] == NoStatement
  }

  lemma RunOpKeepsStatements<Db>(e: Engine<Db>, s: Native<Db>, op: RawOp)
    requires Runnable([op], s.slots)
    ensures SameStatements(s.slots, RunOp(e, s, op).0.slots)
  {
    assert op in [op];
  }

  /** The timed loop of `handle_run`: it stops at the first failure. */
  function RunOps<Db>(e: Engine<Db>, s: Native<Db>, ops: seq<RawOp>): (r: (Native<Db>, Failure))
    requires Runnable(ops, s.slots)
    decreases |ops|
  {
    if ops == [] then (s, Fine)
    else
      assert Runnable([ops[0]], s.slots) by { assert ops[0] in ops; }
      RunOpKeepsStatements(e, s, ops[0]);
      var (s', failure) := RunOp(e, s, ops[0]);
      if failure != Fine then (s', failure) else RunOps(e, s', ops[1..])
  }

  // ---------- The driver and the connection (benchmark, connection.ex, vial_sqlite) ----------

  datatype DriverOp = DriverExec(sql: bytes) | DriverQuery(sql: bytes, params: seq<Term>, countRows: bool)

  /** `driver_param`; None where it raises. */
  function DriverParam(t: Term): Option<Term> {
    match t
    case Atom(name) => if name == NIL then Some(t) else Some(Binary(name))
    case IoList(data) => Some(Binary(data))
    case Other => None
    case _ => Some(t)
  }

  function DriverParams(ts: seq<Term>): (r: Option<seq<Term>>)
    ensures r.Some? ==> |r.value| == |ts| && forall i | 0 <= i < |ts| :: DriverParam(ts[i]) == Some(r.value[i])
    ensures r.Some? <==> forall t <- ts :: DriverParam(t).Some?
  {
    if ts == [] then Some([])
    else
      var head := DriverParam(ts[0]);
      var tail := DriverParams(ts[1..]);
      if head.Some? && tail.Some? then Some([head.value] + tail.value) else None
  }

  /** `driver_ops`; None where a parameter has no conversion. */
  function DriverOps(ops: seq<Captured>): Option<seq<DriverOp>> {
    if ops == [] then Some([])
    else
      var head := match ops[0] {
        case CapturedExec(sql) => Some(DriverExec(sql))
        case CapturedStmt(query, sql, params, _) =>
          var ps := DriverParams(params);
          if ps.Some? then Some(DriverQuery(sql, ps.value, query)) else None
      };
      var tail := DriverOps(ops[1..]);
      if head.Some? && tail.Some? then Some([head.value] + tail.value) else None
  }

  /** `param_value` of the NIF; None is its "unsupported parameter" error. */
  function NifValue(t: Term): Option<Value> {
    match t
    case Integer(i) => if IsInt64(i) then Some(Int(i)) else None
    case Float(bits) => Some(Real(bits))
    case Binary(data) => Some(Text(data))
    case Blob(data) => Some(BlobValue(data))
    case Atom(name) => if name == NIL then Some(Null) else None
    case _ => None
  }

  /** `bind` of the NIF: exactly one supported parameter per placeholder, or an error. */
  function NifBind(arity: nat, ts: seq<Term>): (r: Option<seq<Value>>)
    ensures r.Some? ==> |r.value| == |ts| == arity && forall i | 0 <= i < |ts| :: NifValue(ts[i]) == Some(r.value[i])
  {
    if |ts| != arity then None
    else if ts == [] then Some([])
    else
      var head := NifValue(ts[0]);
      var tail := NifBind(arity - 1, ts[1..]);
      if head.Some? && tail.Some? then Some([head.value] + tail.value) else None
  }

  /** A driver run; `ok` is false once a call answered an error, which stops the replay. */
  datatype Driver<Db> = Driver(db: Db, rows: nat, ok: bool, issued: seq<Issued>)

  /** One call of the NIF's `query`: the state after it and the number of rows returned. */
  function Query<Db>(e: Engine<Db>, d: Driver<Db>, sql: bytes, params: seq<Term>): (Driver<Db>, nat) {
    var values := NifBind(e.arity(sql), params);
    if values.None? then (d.(ok := false), 0)
    else
      var (db, count, ok) := e.step(d.db, sql, values.value);
      (Driver(db, d.rows, ok, d.issued + [IssuedStmt(sql, values.value)]), count)
  }

  function Execute<Db>(e: Engine<Db>, d: Driver<Db>, sql: bytes): Driver<Db> {
    var (db, ok) := e.exec(d.db, sql);
    Driver(db, d.rows, ok, d.issued + [IssuedExec(sql)])
  }

  function RunDriverOp<Db>(e: Engine<Db>, d: Driver<Db>, op: DriverOp): Driver<Db> {
    match op
    case DriverExec(sql) => Execute(e, d, sql)
    case DriverQuery(sql, params, countRows) =>
      var (d', count) := Query(e, d, sql, params);
      if countRows then d'.(rows := d'.rows + count) else d'
  }

  /** `run_driver_ops` */
  function RunDriverOps<Db>(e: Engine<Db>, d: Driver<Db>, ops: seq<DriverOp>): Driver<Db>
    decreases |ops|
  {
    if ops == [] || !d.ok then d else RunDriverOps(e, RunDriverOp(e, d, ops[0]), ops[1..])
  }

  /** `normalize_param` of the connection. */
  function NormalizeParam(t: Term): Term {
    match t
    case IoList(data) => Binary(data)
    case Atom(name) => if name == NIL then t else Binary(name)
    case _ => t
  }

  predicate Plain(t: Term) {
    t.Integer? || t.Float? || t.Binary? || t.Blob? || t == Atom(NIL)
  }

  /** `normalize_params` leaves a list of plain parameters alone. */
  function NormalizeParams(ts: seq<Term>): seq<Term> {
    if forall t <- ts :: Plain(t) then ts else seq(|ts|, i requires 0 <= i < |ts| => NormalizeParam(ts[i]))
  }

  /** `run_connection_ops`, one step. */
  function RunConnectionOp<Db>(e: Engine<Db>, d: Driver<Db>, op: Captured): Driver<Db> {
    match op
    case CapturedExec(sql) => Execute(e, d, sql)
    case CapturedStmt(query, sql, params, _) =>
      var (d', count) := Query(e, d, sql, NormalizeParams(params));
      if query then d'.(rows := d'.rows + count) else d'
  }

  function RunConnectionOps<Db>(e: Engine<Db>, d: Driver<Db>, ops: seq<Captured>): Driver<Db>
    decreases |ops|
  {
    if ops == [] || !d.ok then d else RunConnectionOps(e, RunConnectionOp(e, d, ops[0]), ops[1..])
  }

  // ---------- The native request ----------

  /** `native_request` before encoding: one interned statement id per operation.  None where a
      prepare fails, which raises. */
  function NativeOps<Db>(e: Engine<Db>, db: Db, t: Table, ops: seq<Captured>): (r: (Option<seq<Op>>, Table))
    requires |t.registry| + |ops| <= 0x8000_0000
    ensures r.0.Some? ==> |r.0.value| == |ops|
    decreases |ops|
  {
    if ops == [] then (Some([]), t)
    else match ops[0]
      case CapturedExec(sql) =>
        var (tail, t1) := NativeOps(e, db, t, ops[1..]);
        (if tail.Some? then Some([Exec(sql)] + tail.value) else None, t1)
      case CapturedStmt(query, sql, params, _) =>
        var (id, t1) := Intern(e, t, sql, e.prepare(db, sql));
        if id.None? then (None, t1)
        else
          var (tail, t2) := NativeOps(e, db, t1, ops[1..]);
          (if tail.Some? then Some([Stmt(query, id.value, params)] + tail.value) else None, t2)
  }

  // ---------- The three replays agree ----------

  /** The captured parameter reaches SQLite as the same value on both sides. */
  predicate Portable(t: Term) {
    && (t.Integer? ==> IsInt64(t.i))
    && t != Atom(UNDEFINED)
    && !t.Other?
  }

  /** The value the driver binds for a captured parameter. */
  function DriverValue(t: Term): Option<Value> {
    var converted := DriverParam(t);
    if converted.None? then None else NifValue(converted.value)
  }

  /** The encoder's and the driver's parameter conversions agree exactly on portable parameters: the
      atom `undefined` becomes a null on one side and a text on the other, and an integer beyond 64
      bits is cut on one side and refused on the other. */
  lemma ConversionsAgreeExactly(t: Term)
    ensures !t.Other? <==> DriverParam(t).Some?
    ensures (!t.Other? && DriverValue(t) == Some(WireValue(t))) <==> Portable(t)
  {
    if t.Integer? {
      SignedFieldExact(t.i);
    }
    assert UNDEFINED != NIL by { assert |UNDEFINED| == 9 && |NIL| == 3; }
  }

  /** The connection converts every parameter as `driver_param` does. */
  lemma NormalizeIsDriverParam(ts: seq<Term>)
    requires forall t <- ts :: !t.Other?
    ensures DriverParams(ts) == Some(NormalizeParams(ts))
  {
    forall i | 0 <= i < |ts| ensures DriverParam(ts[i]) == Some(NormalizeParams(ts)[i]) {
      assert ts[i] in ts;
    }
    assert DriverParams(ts).Some?;
    assert DriverParams(ts).value == NormalizeParams(ts);
  }

  predicate Supported(op: Captured) {
    op.CapturedStmt? ==> forall t <- op.params :: !t.Other?
  }

  /** The driver operation made of one captured operation. */
  function DriverOpOf(c: Captured): DriverOp
    requires Supported(c)
  {
    match c
    case CapturedExec(sql) => DriverExec(sql)
    case CapturedStmt(query, sql, params, _) => DriverQuery(sql, DriverParams(params).value, query)
  }

  /** One operation of the connection is the operation of the driver. */
  lemma ConnectionStep<Db>(e: Engine<Db>, d: Driver<Db>, op: Captured)
    requires Supported(op)
    ensures RunConnectionOp(e, d, op) == RunDriverOp(e, d, DriverOpOf(op))
  {
    hide Query, DriverParams, NormalizeParams;
    if op.CapturedStmt? {
      NormalizeIsDriverParam(op.params);
    }
  }

  lemma DriverOpsCons(ops: seq<Captured>)
    requires ops != [] && Supported(ops[0])
    ensures DriverOps(ops)
         == var tail := DriverOps(ops[1..]);
            if tail.Some? then Some([DriverOpOf(ops[0])] + tail.value) else None
  {
    hide DriverParams;
    if ops[0].CapturedStmt? {
      NormalizeIsDriverParam(ops[0].params);
    }
  }

  /** The connection replay is the driver replay, failures included. */
  lemma {:induction false} ConnectionMatchesDriver<Db>(e: Engine<Db>, d: Driver<Db>, ops: seq<Captured>)
    requires forall op <- ops :: Supported(op)
    ensures DriverOps(ops).Some?
    ensures RunConnectionOps(e, d, ops) == RunDriverOps(e, d, DriverOps(ops).value)
    decreases |ops|
  {
    hide RunConnectionOp, RunDriverOp, DriverOpOf, Supported;
    if ops != [] {
      hide DriverOps;
      var op := ops[0];
      assert op in ops;
      DriverOpsCons(ops);
      ConnectionStep(e, d, op);
      ConnectionMatchesDriver(e, RunConnectionOp(e, d, op), ops[1..]);
      var tail := DriverOps(ops[1..]).value;
      assert ([DriverOpOf(op)] + tail)[1..] == tail;
    }
  }

  /** `raw` is the decoded form of `c`, and its id names a statement prepared from the same SQL. */
  predicate Decoded<Db>(e: Engine<Db>, c: Captured, raw: RawOp, slots: seq<Slot>)
    requires Supported(c)
  {
    match c
    case CapturedExec(sql) => raw == RawExec(sql)
    case CapturedStmt(query, sql, params, _) =>
      && raw.RawStmt?
      && raw.countRows == (if query then 1 else 0)
      && raw.params == WireValues(params)
      && raw.id < |slots| && Holds(e, slots[raw.id], sql)
  }

  /** The guard under which both sides treat an operation alike: too many parameters are refused by
      both, and with one parameter per placeholder all of them must be portable. */
  predicate Agreeable<Db>(e: Engine<Db>, c: Captured) {
    c.CapturedStmt? ==>
      || |c.params| > e.arity(c.sql)
      || (|c.params| == e.arity(c.sql) && AllPortable(c.params))
  }

  /** The two runs are in the same position. */
  predicate Aligned<Db(==)>(s: Native<Db>, d: Driver<Db>) {
    s.db == d.db && s.issued == d.issued && s.rows == d.rows % U64
  }

  lemma RowsModulo(rows: nat, count: nat)
    ensures (rows % U64 + count) % U64 == (rows + count) % U64
  {
  }

  /** The NIF binds one value per placeholder exactly when each parameter has one. */
  lemma {:induction false} NifBindExact(arity: nat, ts: seq<Term>)
    ensures NifBind(arity, ts).Some? <==> |ts| == arity && forall t <- ts :: NifValue(t).Some?
  {
    if |ts| == arity && ts != [] {
      NifBindExact(arity - 1, ts[1..]);
      assert forall t <- ts :: t == ts[0] || t in ts[1..];
    }
  }

  lemma ConsEqual<T>(x: T, xs: seq<T>, y: T, ys: seq<T>)
    ensures [x] + xs == [y] + ys <==> x == y && xs == ys
  {
    if [x] + xs == [y] + ys {
      assert ([x] + xs)[0] == x && ([y] + ys)[0] == y;
      assert ([x] + xs)[1..] == xs && ([y] + ys)[1..] == ys;
    }
  }

  predicate AllPortable(ts: seq<Term>) {
    ts == [] || (Portable(ts[0]) && AllPortable(ts[1..]))
  }

  /** For as many parameters as placeholders the driver binds what the native process binds exactly
      if all parameters are portable. */
  lemma {:induction false} BoundValuesAgreeExactly(ts: seq<Term>)
    requires forall t <- ts :: !t.Other?
    ensures DriverParams(ts).Some?
    ensures NifBind(|ts|, DriverParams(ts).value) == Some(WireValues(ts)) <==> AllPortable(ts)
  {
    hide DriverParam, NifValue, WireValue, Portable;
    if ts != [] {
      ConversionsAgreeExactly(ts[0]);
      BoundValuesAgreeExactly(ts[1..]);
      var p := DriverParam(ts[0]);
      assert p.Some?;
      var ps := DriverParams(ts[1..]).value;
      assert DriverParams(ts).value == [p.value] + ps;
      assert ([p.value] + ps)[1..] == ps;
      var head, tail := NifValue(p.value), NifBind(|ts| - 1, ps);
      if head.Some? && tail.Some? {
        ConsEqual(head.value, tail.value, WireValue(ts[0]), WireValues(ts[1..]));
      }
    }
  }

  /** One agreeable operation: both sides issue the same statement, reach the same database and
      report the same rows, or both stop. */
  lemma AgreeableStep<Db>(e: Engine<Db>, s: Native<Db>, d: Driver<Db>, c: Captured, raw: RawOp)
    requires Supported(c) && Decoded(e, c, raw, s.slots) && Runnable([raw], s.slots)
    requires Aligned(s, d) && d.ok && Agreeable(e, c)
    ensures var (s', failure) := RunOp(e, s, raw);
            var d' := RunDriverOp(e, d, DriverOpOf(c));
            Aligned(s', d') && (failure == Fine <==> d'.ok)
  {
    match c
    case CapturedExec(_) =>
    case CapturedStmt(query, sql, params, _) =>
      NifBindExact(e.arity(sql), DriverParams(params).value);
      if |params| == e.arity(sql) {
        BoundValuesAgreeExactly(params);
        var bound := s.slots[raw.id].bound;
        assert WireValues(params) + bound[|params|..] == WireValues(params);
        RowsModulo(d.rows, e.step(s.db, sql, WireValues(params)).1);
      }
  }

  /** Any other operation that is reached makes the issued statements differ at once. */
  lemma OtherStepDiverges<Db>(e: Engine<Db>, s: Native<Db>, d: Driver<Db>, c: Captured, raw: RawOp)
    requires Supported(c) && Decoded(e, c, raw, s.slots) && Runnable([raw], s.slots)
    requires Aligned(s, d) && d.ok && !Agreeable(e, c)
    ensures var s' := RunOp(e, s, raw).0;
            var d' := RunDriverOp(e, d, DriverOpOf(c));
            && |s'.issued| == |s.issued| + 1
            && (if |d'.issued| == |d.issued| then !d'.ok else |d'.issued| == |s'.issued| && d'.issued != s'.issued)
  {
    var params, sql := c.params, c.sql;
    var bound := s.slots[raw.id].bound;
    NifBindExact(e.arity(sql), DriverParams(params).value);
    if |params| == e.arity(sql) {
      BoundValuesAgreeExactly(params);
      assert WireValues(params) + bound[|params|..] == WireValues(params);
      var values := NifBind(e.arity(sql), DriverParams(params).value);
      if values.Some? {
        assert values.value != WireValues(params);
        var s' := RunOp(e, s, raw).0;
        var d' := RunDriverOp(e, d, DriverOpOf(c));
        assert s'.issued[|s.issued|] == IssuedStmt(sql, WireValues(params));
        assert d'.issued[|s.issued|] == IssuedStmt(sql, values.value);
      }
    }
  }

  // ---------- Atoms and leftover bindings ----------

  /** The driver binds the atom `nil` as a null and every other atom as its text. */
  lemma DriverAtoms(name: bytes)
    ensures DriverValue(Atom(name)) == Some(Null) <==> name == [110, 105, 108]
    ensures name != [110, 105, 108] ==> DriverValue(Atom(name)) == Some(Text(name))
  {
  }

  /** Placeholder by placeholder: a parameter replaces what was bound, a placeholder without one keeps it;
      and binding fails exactly with more parameters than placeholders. */
  lemma RebindAt(bound: seq<Value>, params: seq<Value>, i: nat)
    requires i < |bound|
    ensures Rebind(bound, params).0[i] == if i < |params| then params[i] else bound[i]
    ensures Rebind(bound, params).1 <==> |params| <= |bound|
  {
  }

  /** A statement with fewer parameters than placeholders runs with what earlier operations left bound, and
      with nulls where none has bound anything. */
  lemma LeftoversAreIssued<Db>(e: Engine<Db>, s: Native<Db>, op: RawOp, i: nat)
    requires Runnable([op], s.slots) && op.RawStmt? && |op.params| <= |s.slots[op.id].bound|
    requires i < |s.slots[op.id].bound|
    ensures var slot, s' := s.slots[op.id], RunOp(e, s, op).0;
            && |s'.issued| == |s.issued| + 1 && s'.issued[|s.issued|].IssuedStmt?
            && var issued := s'.issued[|s.issued|];
               && issued.sql == slot.sql && |issued.values| == |slot.bound|
               && issued.values[i] == (if i < |op.params| then op.params[i] else slot.bound[i])
               && s'.slots[op.id].bound == issued.values
  {
    assert op in [op];
    RebindAt(s.slots[op.id].bound, op.params, i);
  }

  /** A statement that has just been prepared has a null for every placeholder. */
  lemma FreshBindings<Db>(e: Engine<Db>, slots: seq<Slot>, id: nat, sql: bytes, i: nat)
    requires id < 0x8000_0000 && !e.blank(sql) && i < e.arity(sql)
    ensures var slot := Prepare(e, slots, id, sql, true)[id];
            slot.Prepared? && slot.sql == sql && |slot.bound| == e.arity(sql) && slot.bound[i] == Null
  {
    hide Extended;
  }
}
