/** The native replay process as it is written: a request cursor and a statement table changed in
    place.  Every method is proved against the functions of Wire, StatementTable and Replay. */
module NativeProcess {
  import opened Wrappers
  import opened Bytes
  import opened Wire
  import opened StatementTable
  import opened Replay

  // ---------- cursor_t ----------

  class RequestCursor {
    const data: bytes
    var offset: nat
    var failed: bool

    constructor (data: bytes)
      ensures this.data == data && State() == Wire.Cursor(0, false)
    {
      this.data := data;
      offset, failed := 0, false;
    }

    function State(): Wire.Cursor
      reads this
    {
      Wire.Cursor(offset, failed)
    }

    method TakeU8() returns (value: byte)
      modifies this
      ensures (value, State()) == Wire.TakeU8(data, old(State()))
    {
      if offset + 1 > |data| {
        failed := true;
        return 0;
      }
      value := data[offset];
      offset := offset + 1;
    }

    /** The 64-bit accumulator is shifted left by a byte per step; at most eight bytes are read. */
    method TakeBe(width: nat) returns (value: nat)
      requires width <= 8
      modifies this
      ensures (value, State()) == Wire.TakeBe(data, old(State()), width)
    {
      hide Span;
      assert Span(0) == 1 by { SpanZero(); }
      value := 0;
      if offset + width > |data| {
        failed := true;
        return 0;
      }
      ghost var start := offset;
      for i := 0 to width
        invariant offset == start + i && failed == old(failed)
        invariant value == FromBe(data[start..offset]) < Span(i) <= Span(width)
      {
        SpanBelowWord(i);
        ghost var front := data[start..offset];
        value := (value * 256) % U64 + data[offset] as int;
        offset := offset + 1;
        assert data[start..offset] == front + [data[offset - 1]];
        assert data[start..offset][..i] == front;
        SpanGrows(i + 1, width);
      }
    }

    method TakeBytes(length: nat) returns (slice: Option<bytes>)
      modifies this
      ensures (slice, State()) == Wire.TakeBytes(data, old(State()), length)
    {
      if offset + length > |data| {
        failed := true;
        return None;
      }
      slice := Some(data[offset..offset + length]);
      offset := offset + length;
    }

    method TakeString() returns (copy: Option<bytes>)
      modifies this
      ensures (copy, State()) == Wire.TakeString(data, old(State()))
    {
      var length := TakeBe(4);
      copy := TakeBytes(length);
      if failed {
        copy := None;
      }
    }

    method TakeParam() returns (value: Value)
      modifies this
      ensures (value, State()) == Wire.TakeParam(data, old(State()))
    {
      value := Null;
      var kind := TakeU8();
      match kind {
        case 0 =>
        case 1 =>
          var u := TakeBe(8);
          value := Int(ToInt64(u));
        case 2 =>
          var u := TakeBe(8);
          if IsU64(u) {
            value := Real(u);
          }
        case 3 =>
          var length := TakeBe(4);
          var slice := TakeBytes(length);
          if slice.Some? {
            value := Text(slice.value);
          }
        case 4 =>
          var length := TakeBe(4);
          var slice := TakeBytes(length);
          if slice.Some? {
            value := BlobValue(slice.value);
          }
        case _ =>
          failed := true;
      }
    }

    method TakeParams(count: nat) returns (params: seq<Value>)
      modifies this
      ensures (params, State()) == Wire.TakeParams(data, old(State()), count)
    {
      hide Wire.TakeParam, Wire.TakeParams;
      params := [];
      TakesFrom(data, State(), count, []);
      for p := 0 to count
        invariant Takes(data, old(State()), count, params, State(), count - p)
      {
        TakesNext(data, old(State()), count, params, State(), count - p);
        var value := TakeParam();
        params := params + [value];
      }
      TakesAll(data, old(State()), count, params, State());
    }
  }

  /** Taking `count` parameters from c has so far taken `done` and stands at `now`, with `left` to go. */
  ghost predicate Takes(
    data: bytes, c: Wire.Cursor, count: nat, done: seq<Value>, now: Wire.Cursor, left: nat)
  {
    var (all, last) := Wire.TakeParams(data, c, count);
    var (rest, end) := Wire.TakeParams(data, now, left);
    all == done + rest && last == end
  }

  lemma TakesFrom(data: bytes, c: Wire.Cursor, count: nat, done: seq<Value>)
    requires done == []
    ensures Takes(data, c, count, done, c, count)
  {
    hide Wire.TakeParams;
    var all := Wire.TakeParams(data, c, count).0;
    assert [] + all == all;
  }

  lemma TakesNext(data: bytes, c: Wire.Cursor, count: nat, done: seq<Value>, now: Wire.Cursor, left: nat)
    requires left > 0 && Takes(data, c, count, done, now, left)
    ensures var (value, next) := Wire.TakeParam(data, now);
            Takes(data, c, count, done + [value], next, left - 1)
  {
    hide Wire.TakeParam;
    var (value, next) := Wire.TakeParam(data, now);
    var rest := Wire.TakeParams(data, next, left - 1).0;
    assert done + ([value] + rest) == (done + [value]) + rest;
  }

  lemma TakesAll(data: bytes, c: Wire.Cursor, count: nat, done: seq<Value>, now: Wire.Cursor)
    requires Takes(data, c, count, done, now, 0)
    ensures (done, now) == Wire.TakeParams(data, c, count)
  {
    assert done + [] == done;
  }

  lemma SpanZero()
    ensures Span(0) == 1
  {
  }

  lemma SpanGrows(m: nat, n: nat)
    requires m <= n
    ensures Span(m) <= Span(n)
    decreases n - m
  {
    if m < n {
      SpanGrows(m + 1, n);
    }
  }

  /** A shift of fewer than eight bytes loses no bit. */
  lemma SpanBelowWord(i: nat)
    requires i < 8
    ensures 256 * Span(i) <= U64
  {
    Spans();
    SpanGrows(i + 1, 8);
  }

  /** A string taken from a packet is short enough for the 32-bit size of its NUL-terminated copy. */
  lemma CopySizeFits(data: bytes, c: Wire.Cursor)
    requires |data| < 0x1_0000_0000 && Wire.TakeString(data, c).0.Some?
    ensures |Wire.TakeString(data, c).0.value| + 1 < 0x1_0000_0000
  {
    hide FromBe;
  }

  // ---------- Replies ----------

  const RUN_REPLY_TAG: byte := 114

  /** `put_u64` writes the bytes from the last to the first. */
  method PutU64(out: array<byte>, at: nat, value: u64)
    requires at + 8 <= out.Length
    modifies out
    ensures out[..] == old(out[..at]) + Be(8, value) + old(out[at + 8..])
  {
    ghost var before := out[..];
    var v: int := value;
    var i := 8;
    while i > 0
      invariant 0 <= i <= 8 && v >= 0
      invariant out[..at + i] == before[..at + i]
      invariant Be(i, v) + out[at + i..at + 8] == Be(8, value)
      invariant out[at + 8..] == before[at + 8..]
    {
      i := i - 1;
      ghost var done := out[at + i + 1..at + 8];
      assert Be(i + 1, v) == Be(i, v / 256) + [(v % 256) as byte];
      out[at + i] := (v % 256) as byte;
      v := v / 256;
      assert out[at + i..at + 8] == [out[at + i]] + done;
      assert out[..at + i] == before[..at + i];
    }
    assert out[..] == out[..at] + out[at..at + 8] + out[at + 8..];
  }

  /** The measurements of a run. */
  datatype Measured = Measured(ns: u64, rows: u64, vmSteps: u64, statements: u64)

  function RunReply(m: Measured): bytes {
    Be(8, m.ns) + Be(8, m.rows) + Be(8, m.vmSteps) + Be(8, m.statements)
  }

  /** The Elixir side's match on a run reply: the tag and exactly four 64-bit fields. */
  function ParseRunReply(packet: bytes): Option<Measured> {
    if |packet| == 33 && packet[0] == RUN_REPLY_TAG then
      Spans();
      Some(Measured(FromBe(packet[1..9]), FromBe(packet[9..17]), FromBe(packet[17..25]), FromBe(packet[25..33])))
    else None
  }

  /** A 64-bit field of a packet. */
  lemma WordField(field: bytes, v: u64)
    requires |field| == 8
    ensures FromBe(field) == v <==> field == Be(8, v)
  {
    Spans();
    UnsignedField(8, v);
    BeOfFromBe(field);
  }

  lemma FourFields(packet: bytes, a: bytes, b: bytes, c: bytes, d: bytes)
    requires |packet| == 33 && |a| == |b| == |c| == |d| == 8
    ensures packet == [RUN_REPLY_TAG] + (a + b + c + d) <==>
            && packet[0] == RUN_REPLY_TAG
            && packet[1..9] == a && packet[9..17] == b && packet[17..25] == c && packet[25..33] == d
  {
    var sent := [RUN_REPLY_TAG] + (a + b + c + d);
    assert sent[1..9] == a && sent[9..17] == b && sent[17..25] == c && sent[25..33] == d;
    assert packet == [packet[0]] + (packet[1..9] + packet[9..17] + packet[17..25] + packet[25..33]);
  }

  /** The four values written are the four values read, and no other packet is read as them. */
  lemma RunReplyRoundTrip(packet: bytes, m: Measured)
    ensures ParseRunReply(packet) == Some(m) <==>
            packet == [114] + (Be(8, m.ns) + Be(8, m.rows) + Be(8, m.vmSteps) + Be(8, m.statements))
  {
    hide Be, FromBe, Span;
    Spans();
    if |packet| == 33 {
      WordField(packet[1..9], m.ns);
      WordField(packet[9..17], m.rows);
      WordField(packet[17..25], m.vmSteps);
      WordField(packet[25..33], m.statements);
      FourFields(packet, Be(8, m.ns), Be(8, m.rows), Be(8, m.vmSteps), Be(8, m.statements));
    }
  }

  /** Replies of `handle_prepare` and `handle_run`. */
  datatype Reply = Ok | Malformed | PrepareError | RunError(failure: Failure) | RunOk(payload: bytes)

  /** The placeholders when the first i parameters are bound. */
  function BoundSoFar(bound: seq<Value>, params: seq<Value>, i: nat): (r: seq<Value>)
    requires i <= |bound| && i <= |params|
    ensures |r| == |bound|
  {
    params[..i] + bound[i..]
  }

  lemma BoundFirst(bound: seq<Value>, params: seq<Value>)
    ensures BoundSoFar(bound, params, 0) == bound
  {
  }

  /** Binding one more placeholder in place. */
  lemma BindStep(bound: seq<Value>, params: seq<Value>, i: nat)
    requires i < |bound| && i < |params|
    ensures BoundSoFar(bound, params, i)[i := params[i]] == BoundSoFar(bound, params, i + 1)
  {
  }

  lemma BoundLast(bound: seq<Value>, params: seq<Value>, i: nat)
    requires i <= |bound| && i <= |params| && (i == |bound| || i == |params|)
    ensures (BoundSoFar(bound, params, i), i == |params|) == Rebind(bound, params)
  {
    if i == |params| {
      assert params[..i] == params;
    } else {
      assert params[..i] + bound[i..] == params[..i];
    }
  }

  // ---------- The process ----------

  class Process<Db> {
    const engine: Engine<Db>
    var db: Db
    var statements: array<Slot>

    constructor (engine: Engine<Db>, db: Db)
      ensures this.engine == engine && this.db == db && statements[..] == [] && fresh(statements)
    {
      this.engine, this.db := engine, db;
      statements := new Slot[0];
    }

    /** Null every slot; the capacity stays. */
    method CloseDatabase()
      modifies statements
      ensures statements.Length == old(statements.Length)
      ensures forall i | 0 <= i < statements.Length :: statements[i] == NoStatement
    {
      for i := 0 to statements.Length
        invariant forall j | 0 <= j < i :: statements[j] == NoStatement
      {
        statements[i] := NoStatement;
      }
    }

    /** The growth part of `handle_prepare`.  At ids from 2^31 on the doubling loop would not end
        (DoublingTerminatesExactly). */
    method Grow(id: nat)
      requires id < 0x8000_0000
      modifies this`statements
      ensures statements[..] == Extended(old(statements[..]), id)
      ensures statements == old(statements) || fresh(statements)
    {
      if id < statements.Length {
        return;
      }
      var capacity := if statements.Length > 0 then statements.Length else FIRST_CAPACITY;
      ghost var target := Grown(capacity, id);
      while capacity <= id
        invariant 0 < capacity && Grown(capacity, id) == target
        decreases id - capacity
      {
        capacity := capacity * 2 % WORD;
      }
      var current := statements;
      var larger := new Slot[capacity](_ => NoStatement);
      for i := 0 to current.Length
        invariant larger[..i] == current[..i]
        invariant forall j | i <= j < capacity :: larger[j] == NoStatement
      {
        larger[i] := current[i];
      }
      assert larger[..] == current[..] + seq(capacity - current.Length, _ => NoStatement);
      statements := larger;
    }

    method HandlePrepare(cursor: RequestCursor) returns (reply: Reply)
      requires var (id, c) := Wire.TakeBe(cursor.data, cursor.State(), 4);
               Wire.TakeString(cursor.data, c).0.Some? ==> id < 0x8000_0000
      modifies this`statements, statements, cursor
      ensures statements == old(statements) || fresh(statements)
      ensures var (id, c) := Wire.TakeBe(cursor.data, old(cursor.State()), 4);
              var sql := Wire.TakeString(cursor.data, c).0;
              if sql.None? then reply == Malformed && statements[..] == old(statements[..])
              else
                var ok := engine.prepare(db, sql.value);
                && reply == (if ok then Ok else PrepareError)
                && statements[..] == Prepare(engine, old(statements[..]), id, sql.value, ok)
    {
      var id := cursor.TakeBe(4);
      var sql := cursor.TakeString();
      if sql.None? {
        return Malformed;
      }
      Grow(id);
      ghost var grown := statements[..];
      statements[id] := NoStatement;
      var ok := engine.prepare(db, sql.value);
      statements[id] := Handle(engine, sql.value, ok);
      assert statements[..] == grown[id := Handle(engine, sql.value, ok)];
      reply := if ok then Ok else PrepareError;
    }

    method DecodeOp(cursor: RequestCursor) returns (op: Option<RawOp>)
      modifies cursor
      ensures (op, cursor.State()) == TakeOp(cursor.data, old(cursor.State()), LiveIds(statements[..]))
    {
      var kind := cursor.TakeU8();
      if kind == 1 {
        var sql := cursor.TakeString();
        return if sql.Some? then Some(RawExec(sql.value)) else None;
      }
      var countRows := cursor.TakeU8();
      var id := cursor.TakeBe(4);
      var count := cursor.TakeBe(2);
      if cursor.failed || id >= statements.Length || statements[id] == NoStatement {
        return None;
      }
      var params := cursor.TakeParams(count);
      if cursor.failed {
        return None;
      }
      op := Some(RawStmt(kind, countRows, id, params));
    }

    method DecodeOps(cursor: RequestCursor, count: nat) returns (ops: Option<seq<RawOp>>)
      modifies cursor
      ensures (ops, cursor.State()) == Wire.DecodeOps(cursor.data, old(cursor.State()), count, LiveIds(statements[..]))
    {
      hide TakeOp, LiveIds;
      ghost var live := LiveIds(statements[..]);
      var done := [];
      assert forall ops: seq<RawOp> :: [] + ops == ops && ops + [] == ops;
      for i := 0 to count
        invariant live == LiveIds(statements[..])
        invariant var (all, last) := Wire.DecodeOps(cursor.data, old(cursor.State()), count, live);
                  var (rest, end) := Wire.DecodeOps(cursor.data, cursor.State(), count - i, live);
                  && last == end && all.Some? == rest.Some?
                  && (all.Some? ==> all.value == done + rest.value)
      {
        var op := DecodeOp(cursor);
        if op.None? {
          return None;
        }
        ghost var rest := Wire.DecodeOps(cursor.data, cursor.State(), count - i - 1, live).0;
        assert rest.Some? ==> done + ([op.value] + rest.value) == (done + [op.value]) + rest.value;
        done := done + [op.value];
      }
      ops := if cursor.failed then None else Some(done);
    }

    /** `bind_params`: one placeholder after the other; false at the first that does not exist. */
    method BindParams(id: nat, params: seq<Value>) returns (fits: bool)
      requires id < statements.Length && statements[id].Prepared?
      modifies statements
      ensures var slot := old(statements[id]);
              var (bound, ok) := Rebind(slot.bound, params);
              fits == ok && statements[..] == old(statements[..])[id := slot.(bound := bound)]
    {
      hide Rebind;
      ghost var slot := statements[id];
      ghost var before := statements[..];
      BoundFirst(slot.bound, params);
      for i := 0 to |params|
        invariant i <= |slot.bound|
        invariant statements[..] == before[id := slot.(bound := BoundSoFar(slot.bound, params, i))]
      {
        assert statements[id] == statements[..][id];
        var bound := statements[id].bound;
        if i >= |bound| {
          BoundLast(slot.bound, params, i);
          return false;
        }
        BindStep(slot.bound, params, i);
        hide BoundSoFar;
        ghost var now := statements[..];
        statements[id] := statements[id].(bound := bound[i := params[i]]);
        assert statements[..] == now[id := statements[id]];
      }
      BoundLast(slot.bound, params, |params|);
      fits := true;
    }

    /** The timed loop of `handle_run`. */
    method RunAll(ops: seq<RawOp>) returns (rows: nat, executed: nat, failure: Failure, ghost issued: seq<Issued>)
      requires Runnable(ops, statements[..])
      modifies this`db, statements
      ensures rows < U64
      ensures (Native(db, statements[..], rows, executed, issued), failure)
           == RunOps(engine, Native(old(db), old(statements[..]), 0, 0, []), ops)
    {
      rows, executed, failure, issued := 0, 0, Fine, [];
      ghost var start := Native(db, statements[..], 0, 0, []);
      var i := 0;
      while i < |ops| && failure == Fine
        invariant 0 <= i <= |ops| && rows < U64
        invariant failure == Fine ==> Runnable(ops[i..], statements[..])
        invariant var now := Native(db, statements[..], rows, executed, issued);
                  RunOps(engine, start, ops)
                    == if failure == Fine then RunOps(engine, now, ops[i..]) else (now, failure)
        decreases |ops| - i, failure == Fine
      {
        var op := ops[i];
        ghost var now := Native(db, statements[..], rows, executed, issued);
        assert ops[i..][0] == op && ops[i..][1..] == ops[i + 1..];
        assert Runnable([op], statements[..]) by { assert op in ops[i..]; }
        RunOpKeepsStatements(engine, now, op);
        rows, executed, failure, issued := RunOne(op, rows, executed, issued);
        i := i + 1;
      }
    }

    method RunOne(op: RawOp, rows0: nat, executed0: nat, ghost issued0: seq<Issued>)
      returns (rows: nat, executed: nat, failure: Failure, ghost issued: seq<Issued>)
      requires Runnable([op], statements[..]) && rows0 < U64
      modifies this`db, statements
      ensures rows < U64
      ensures (Native(db, statements[..], rows, executed, issued), failure)
           == RunOp(engine, Native(old(db), old(statements[..]), rows0, executed0, issued0), op)
    {
      rows, executed, failure, issued := rows0, executed0, Fine, issued0;
      assert op in [op];
      match op {
        case RawExec(sql) =>
          var (db', ok) := engine.exec(db, sql);
          db := db';
          issued := issued + [IssuedExec(sql)];
          if !ok {
            failure := ExecFailed;
          }
          executed := executed + 1;
        case RawStmt(_, countRows, id, params) =>
          var fits := BindParams(id, params);
          if !fits {
            failure := BindFailed;
            return;
          }
          var statement := statements[id];
          var (db', count, ok) := engine.step(db, statement.sql, statement.bound);
          rows := CountRows(rows, count, countRows as nat);
          db := db';
          issued := issued + [IssuedStmt(statement.sql, statement.bound)];
          if !ok {
            failure := StepFailed;
          }
          executed := executed + 1;
      }
    }

    /** The timing and the VM step count come from outside the model. */
    method HandleRun(cursor: RequestCursor, elapsed: u64, vmSteps: u64) returns (reply: Reply)
      requires cursor.State() == Wire.Cursor(0, false)
      modifies this`db, statements, cursor
      ensures var raws := DecodeRun(cursor.data, LiveIds(old(statements[..]))).0;
              if raws.None? then reply == Malformed && db == old(db) && statements[..] == old(statements[..])
              else
                && Runnable(raws.value, old(statements[..]))
                && var (s, failure) := RunOps(engine, Native(old(db), old(statements[..]), 0, 0, []), raws.value);
                   && db == s.db && statements[..] == s.slots
                   && s.rows < U64 && s.executed < U64
                   && reply == (if failure == Fine
                                then RunOk(RunReply(Measured(elapsed, s.rows, vmSteps, s.executed)))
                                else RunError(failure))
    {
      hide Span, Be, FromBe, Wire.DecodeOps, RunOps;
      var count := cursor.TakeBe(4);
      if cursor.failed {
        return Malformed;
      }
      ghost var c := cursor.State();
      var ops := DecodeOps(cursor, count);
      if ops.None? {
        return Malformed;
      }
      DecodeOpsSafe(cursor.data, c, count, LiveIds(statements[..]));
      LiveOpsRunnable(ops.value, statements[..]);
      ghost var start := Native(db, statements[..], 0, 0, []);
      RunBounds(engine, start, ops.value);
      Spans();
      var rows, executed, failure, issued := RunAll(ops.value);
      if failure != Fine {
        return RunError(failure);
      }
      var out := new byte[32](_ => 0);
      PutU64(out, 0, elapsed);
      PutU64(out, 8, rows);
      PutU64(out, 16, vmSteps);
      PutU64(out, 24, executed);
      assert out[..] == RunReply(Measured(elapsed, rows, vmSteps, executed));
      reply := RunOk(out[..]);
    }
  }

  // ---------- The other side of the statement table ----------

  /** The benchmark's registry of statement ids, in front of the process. */
  class NativeControl<Db> {
    const process: Process<Db>
    var registry: Registry
    ghost var names: seq<bytes>

    constructor (process: Process<Db>)
      requires process.statements[..] == []
      ensures this.process == process && Now() == Table(map[], [], []) && InStep(process.engine, Now())
    {
      this.process := process;
      registry, names := map[], [];
    }

    /** Registry and table together. */
    ghost function Now(): Table
      reads this, process, process.statements
    {
      Table(registry, process.statements[..], names)
    }

    /** `native_statement`: None where the failed prepare raises.  The prepare request goes over the wire
        and is read back by the process. */
    method NativeStatement(sql: bytes) returns (id: Option<nat>)
      requires |registry| < 0x8000_0000 && |sql| < 0x1_0000_0000
      modifies this, process`statements, process.statements
      ensures process.statements == old(process.statements) || fresh(process.statements)
      ensures (id, Now())
           == Intern(process.engine, old(Now()), sql, process.engine.prepare(process.db, sql))
      ensures old(InStep(process.engine, Now())) ==> InStep(process.engine, Now())
    {
      hide InStep, Prepare;
      ghost var before := Now();
      if InStep(process.engine, before) {
        InternKeepsStep(process.engine, before, sql, process.engine.prepare(process.db, sql));
      }
      if sql in registry {
        return Some(registry[sql]);
      }
      var next := |registry|;
      var data := EncodePrepare(next, sql)[1..];
      PrepareExact(data, next, sql);
      var cursor := new RequestCursor(data);
      var reply := process.HandlePrepare(cursor);
      if reply != Ok {
        return None;
      }
      registry := registry[sql := next];
      names := names + [sql];
      id := Some(next);
    }
  }

  /** `rows += count_rows` once per row, in a 64-bit counter. */
  method CountRows(rows0: nat, count: nat, countRows: nat) returns (rows: nat)
    requires rows0 < U64
    ensures rows == (rows0 + count * countRows) % U64
  {
    rows := rows0;
    for i := 0 to count
      invariant rows == (rows0 + i * countRows) % U64
    {
      RowsModulo(rows0 + i * countRows, countRows);
      assert rows0 + i * countRows + countRows == rows0 + (i + 1) * countRows;
      rows := (rows + countRows) % U64;
    }
  }

  lemma LiveOpsRunnable(ops: seq<RawOp>, slots: seq<Slot>)
    requires forall op <- ops :: op.RawStmt? ==> op.id in LiveIds(slots)
    ensures Runnable(ops, slots)
  {
  }

  lemma {:induction false} RunBounds<Db>(e: Engine<Db>, s: Native<Db>, ops: seq<RawOp>)
    requires Runnable(ops, s.slots) && s.rows < U64
    ensures RunOps(e, s, ops).0.rows < U64
    ensures RunOps(e, s, ops).0.executed <= s.executed + |ops|
    decreases |ops|
  {
    if ops != [] {
      assert Runnable([ops[0]], s.slots) by { assert ops[0] in ops; }
      RunOpKeepsStatements(e, s, ops[0]);
      var (s', failure) := RunOp(e, s, ops[0]);
      if failure == Fine {
        RunBounds(e, s', ops[1..]);
      }
    }
  }
}
