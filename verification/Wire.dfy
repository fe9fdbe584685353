/** The run request of the native replay protocol: the byte grammar, the Elixir encoder and the
    decoder, as functions on byte strings, with the proof that they are inverse to each other. */
module Wire {
  import opened Wrappers
  import opened Arithmetic
  import opened Bytes

  /** A captured statement parameter.  Atoms carry their name, a float its IEEE bits and an iolist
      its flattening; `Other` is any term the encoder has no clause for. */
  datatype Term =
    | Atom(name: bytes)
    | Integer(i: int)
    | Float(bits: u64)
    | Binary(data: bytes)
    | Blob(data: bytes)
    | IoList(data: bytes)
    | Other

  type u64 = x: int | 0 <= x < 0x1_0000_0000_0000_0000

  /** A value bound to a statement placeholder. */
  datatype Value = Null | Int(i: int) | Real(bits: u64) | Text(data: bytes) | BlobValue(data: bytes)

  /** An operation handed to `encode_run`. */
  datatype Op = Exec(sql: bytes) | Stmt(countRows: bool, id: nat, params: seq<Term>)

  /** An operation as `decode_ops` stores it.  Every kind byte other than 1 is a statement. */
  datatype RawOp = RawExec(sql: bytes) | RawStmt(kind: byte, countRows: byte, id: nat, params: seq<Value>)

  // The atom names `nil` and `undefined`.
  const NIL: bytes := [110, 105, 108]
  const UNDEFINED: bytes := [117, 110, 100, 101, 102, 105, 110, 101, 100]

  const RUN_TAG: byte := 82

  // ---------- Encoder (native.exs) ----------

  function Str(s: bytes): bytes {
    Be(4, |s|) + s
  }

  function EncodeParam(t: Term): bytes
    requires !t.Other?
  {
    match t
    case Atom(name) => if name == NIL || name == UNDEFINED then [0] else [3] + Str(name)
    case Integer(i) => [1] + Be(8, i)
    case Float(bits) => [2] + Be(8, bits)
    case Binary(data) => [3] + Str(data)
    case Blob(data) => [4] + Str(data)
    case IoList(data) => [3] + Str(data)
  }

  predicate Encodable(op: Op) {
    op.Stmt? ==> forall t <- op.params :: !t.Other?
  }

  function EncodeParams(ts: seq<Term>): bytes
    requires forall t <- ts :: !t.Other?
  {
    if ts == [] then [] else EncodeParam(ts[0]) + EncodeParams(ts[1..])
  }

  function EncodeOp(op: Op): bytes
    requires Encodable(op)
  {
    match op
    case Exec(sql) => [1] + Str(sql)
    case Stmt(countRows, id, params) =>
      [0] + (([if countRows then 1 else 0] + (Be(4, id) + Be(2, |params|))) + EncodeParams(params))
  }

  function EncodeOps(ops: seq<Op>): bytes
    requires forall op <- ops :: Encodable(op)
  {
    if ops == [] then [] else EncodeOp(ops[0]) + EncodeOps(ops[1..])
  }

  /** The whole request packet: tag, operation count, operations. */
  function EncodeRun(ops: seq<Op>): bytes
    requires forall op <- ops :: Encodable(op)
  {
    [RUN_TAG] + (Be(4, |ops|) + EncodeOps(ops))
  }

  // ---------- Decoder (vk_replay.c) ----------

  /** The mutable part of `cursor_t`. */
  datatype Cursor = Cursor(offset: nat, failed: bool)

  function TakeBe(data: bytes, c: Cursor, width: nat): (r: (nat, Cursor)) {
    if c.offset + width > |data| then (0, c.(failed := true))
    else (FromBe(data[c.offset..c.offset + width]), c.(offset := c.offset + width))
  }

  function TakeU8(data: bytes, c: Cursor): (r: (byte, Cursor)) {
    if c.offset + 1 > |data| then (0, c.(failed := true))
    else (data[c.offset], c.(offset := c.offset + 1))
  }

  /** The slice handed out, or None for a null pointer. */
  function TakeBytes(data: bytes, c: Cursor, length: nat): (r: (Option<bytes>, Cursor)) {
    if c.offset + length > |data| then (None, c.(failed := true))
    else (Some(data[c.offset..c.offset + length]), c.(offset := c.offset + length))
  }

  /** A length-prefixed string; null whenever the cursor has failed, now or before. */
  function TakeString(data: bytes, c: Cursor): (r: (Option<bytes>, Cursor)) {
    var (length, c1) := TakeBe(data, c, 4);
    var (slice, c2) := TakeBytes(data, c1, length);
    if c2.failed then (None, c2) else (slice, c2)
  }

  /** One parameter.  The value of a failed read is never used; Null stands for it. */
  function TakeParam(data: bytes, c: Cursor): (r: (Value, Cursor)) {
    var (kind, c1) := TakeU8(data, c);
    match kind
    case 0 => (Null, c1)
    case 1 => var (u, c2) := TakeBe(data, c1, 8); (Int(ToInt64(u)), c2)
    case 2 => var (u, c2) := TakeBe(data, c1, 8); (if IsU64(u) then Real(u) else Null, c2)
    case 3 =>
      var (length, c2) := TakeBe(data, c1, 4);
      var (slice, c3) := TakeBytes(data, c2, length);
      (if slice.Some? then Text(slice.value) else Null, c3)
    case 4 =>
      var (length, c2) := TakeBe(data, c1, 4);
      var (slice, c3) := TakeBytes(data, c2, length);
      (if slice.Some? then BlobValue(slice.value) else Null, c3)
    case _ => (Null, c1.(failed := true))
  }

  predicate IsU64(x: int) {
    0 <= x < 0x1_0000_0000_0000_0000
  }

  function TakeParams(data: bytes, c: Cursor, count: nat): (r: (seq<Value>, Cursor))
    ensures |r.0| == count
    decreases count
  {
    if count == 0 then ([], c)
    else
      var (v, c1) := TakeParam(data, c);
      var (vs, c2) := TakeParams(data, c1, count - 1);
      ([v] + vs, c2)
  }

  /** What precedes the parameters of a statement operation. */
  datatype Header = Header(countRows: byte, id: nat, count: nat)

  function TakeHeader(data: bytes, c: Cursor): (r: (Header, Cursor)) {
    var (countRows, c1) := TakeU8(data, c);
    var (id, c2) := TakeBe(data, c1, 4);
    var (count, c3) := TakeBe(data, c2, 2);
    (Header(countRows, id, count), c3)
  }

  /** One operation; None where `decode_ops` returns 0.  `live` holds the ids of non-null slots. */
  function TakeOp(data: bytes, c: Cursor, live: set<nat>): (r: (Option<RawOp>, Cursor)) {
    var (kind, c1) := TakeU8(data, c);
    if kind == 1 then
      var (sql, c2) := TakeString(data, c1);
      (if sql.Some? then Some(RawExec(sql.value)) else None, c2)
    else
      var (h, c2) := TakeHeader(data, c1);
      if c2.failed || h.id !in live then (None, c2)
      else
        var (params, c3) := TakeParams(data, c2, h.count);
        (if c3.failed then None else Some(RawStmt(kind, h.countRows, h.id, params)), c3)
  }

  /** `decode_ops`: the operations, or None when the request is malformed. */
  function DecodeOps(data: bytes, c: Cursor, count: nat, live: set<nat>): (r: (Option<seq<RawOp>>, Cursor))
    decreases count
  {
    if count == 0 then (if c.failed then None else Some([]), c)
    else
      var (op, c1) := TakeOp(data, c, live);
      if op.None? then (None, c1)
      else
        var (ops, c2) := DecodeOps(data, c1, count - 1, live);
        (if ops.None? then None else Some([op.value] + ops.value), c2)
  }

  /** The body of a run request: the count, then that many operations. */
  function DecodeRun(data: bytes, live: set<nat>): (r: (Option<seq<RawOp>>, Cursor)) {
    var (count, c) := TakeBe(data, Cursor(0, false), 4);
    if c.failed then (None, c) else DecodeOps(data, c, count, live)
  }

  // ---------- The grammar both sides implement ----------

  /** The bytes a decoded value stands for. */
  function RenderValue(v: Value): bytes {
    match v
    case Null => [0]
    case Int(i) => [1] + Be(8, i)
    case Real(bits) => [2] + Be(8, bits)
    case Text(data) => [3] + Str(data)
    case BlobValue(data) => [4] + Str(data)
  }

  function RenderValues(vs: seq<Value>): bytes {
    if vs == [] then [] else RenderValue(vs[0]) + RenderValues(vs[1..])
  }

  function RenderOp(op: RawOp): bytes {
    match op
    case RawExec(sql) => [1] + Str(sql)
    case RawStmt(kind, countRows, id, params) =>
      [kind] + (RenderHeader(Header(countRows, id, |params|)) + RenderValues(params))
  }

  function RenderHeader(h: Header): bytes {
    [h.countRows] + (Be(4, h.id) + Be(2, h.count))
  }

  function RenderOps(ops: seq<RawOp>): bytes {
    if ops == [] then [] else RenderOp(ops[0]) + RenderOps(ops[1..])
  }

  /** Values and operations that fit the field widths. */
  predicate FitsValue(v: Value) {
    match v
    case Int(i) => IsInt64(i)
    case Text(data) => |data| < 0x1_0000_0000
    case BlobValue(data) => |data| < 0x1_0000_0000
    case _ => true
  }

  predicate FitsValues(vs: seq<Value>) {
    forall v <- vs :: FitsValue(v)
  }

  predicate FitsOp(op: RawOp, live: set<nat>) {
    match op
    case RawExec(sql) => |sql| < 0x1_0000_0000
    case RawStmt(kind, _, id, params) =>
      && kind != 1
      && id in live && id < 0x1_0000_0000
      && |params| < 0x1_0000
      && FitsValues(params)
  }

  predicate FitsOps(ops: seq<RawOp>, live: set<nat>) {
    forall op <- ops :: FitsOp(op, live)
  }

  // ---------- Decoding and rendering are inverse ----------

  /** `after` is a state the cursor may reach from `before`: the offset only grows, stays inside the
      buffer, and a failure is never forgotten. */
  predicate Advances(data: bytes, before: Cursor, after: Cursor) {
    && before.offset <= after.offset <= |data|
    && (before.failed ==> after.failed)
  }

  lemma TakeParamAdvances(data: bytes, c: Cursor)
    requires c.offset <= |data|
    ensures Advances(data, c, TakeParam(data, c).1)
  {
  }

  lemma {:induction false} TakeParamsAdvances(data: bytes, c: Cursor, count: nat)
    requires c.offset <= |data|
    ensures Advances(data, c, TakeParams(data, c, count).1)
    decreases count
  {
    hide TakeParam;
    if count > 0 {
      TakeParamAdvances(data, c);
      TakeParamsAdvances(data, TakeParam(data, c).1, count - 1);
    }
  }

  lemma TakeHeaderAdvances(data: bytes, c: Cursor)
    requires c.offset <= |data|
    ensures Advances(data, c, TakeHeader(data, c).1)
  {
    hide FromBe;
  }

  lemma TakeOpAdvances(data: bytes, c: Cursor, live: set<nat>)
    requires c.offset <= |data|
    ensures Advances(data, c, TakeOp(data, c, live).1)
    ensures TakeOp(data, c, live).0.Some? ==> !TakeOp(data, c, live).1.failed
  {
    hide TakeHeader, TakeParams;
    var (kind, c1) := TakeU8(data, c);
    if kind != 1 {
      var (h, c2) := TakeHeader(data, c1);
      TakeHeaderAdvances(data, c1);
      TakeParamsAdvances(data, c2, h.count);
    }
  }

  lemma TakeOpNames(data: bytes, c: Cursor, live: set<nat>)
    ensures var op := TakeOp(data, c, live).0;
            op.Some? && op.value.RawStmt? ==> op.value.id in live
  {
    hide TakeHeader, TakeParams;
  }

  /** Decoder safety on arbitrary bytes: the cursor never moves back or past the end, never recovers
      from a failure, and a success reports exactly `count` operations that name live slots only. */
  lemma {:induction false} DecodeOpsSafe(data: bytes, c: Cursor, count: nat, live: set<nat>)
    requires c.offset <= |data|
    ensures var (ops, c') := DecodeOps(data, c, count, live);
            && Advances(data, c, c')
            && (ops.Some? ==> !c'.failed && |ops.value| == count)
            && (ops.Some? ==> forall op <- ops.value :: op.RawStmt? ==> op.id in live)
    decreases count
  {
    hide TakeOp;
    if count > 0 {
      TakeOpAdvances(data, c, live);
      TakeOpNames(data, c, live);
      DecodeOpsSafe(data, TakeOp(data, c, live).1, count - 1, live);
    }
  }

  lemma TakeBeComplete(data: bytes, c: Cursor, width: nat, v: nat)
    requires !c.failed && v < Span(width) && At(data, c.offset, Be(width, v))
    ensures TakeBe(data, c, width) == (v, Cursor(c.offset + width, false))
  {
    hide Span, Be, FromBe;
    UnsignedField(width, v);
  }

  lemma TakeBeSound(data: bytes, c: Cursor, width: nat)
    requires !c.failed && !TakeBe(data, c, width).1.failed
    ensures var (v, c') := TakeBe(data, c, width);
            v < Span(width) && At(data, c.offset, Be(width, v)) && c' == Cursor(c.offset + width, false)
  {
    hide Span, Be, FromBe;
    var field := data[c.offset..c.offset + width];
    assert |field| == width;
    BeOfFromBe(field);
  }

  lemma TagAt(data: bytes, c: Cursor, tag: byte, rest: bytes)
    ensures At(data, c.offset, [tag] + rest) <==>
            && c.offset < |data|
            && TakeU8(data, c) == (tag, c.(offset := c.offset + 1))
            && At(data, c.offset + 1, rest)
  {
    AtSplit(data, c.offset, [tag], rest);
    if c.offset < |data| {
      assert data[c.offset..c.offset + 1] == [data[c.offset]];
    }
  }

  /** `ToInt64` keeps the 64 bits. */
  lemma SameBits(u: nat)
    requires u < Span(8)
    ensures Be(8, ToInt64(u)) == Be(8, u)
  {
    Spans();
    var d := 0x1_0000_0000_0000_0000;
    BeOfMod(8, ToInt64(u));
    if ToInt64(u) < 0 {
      UniqueRemainder(ToInt64(u), d, -1, u);
    } else {
      UniqueRemainder(u, d, 0, u);
    }
  }

  /** A parameter is read as `v` exactly where the rendering of a fitting `v` stands. */
  lemma ParamComplete(data: bytes, c: Cursor, v: Value)
    requires !c.failed && FitsValue(v) && At(data, c.offset, RenderValue(v))
    ensures TakeParam(data, c) == (v, Cursor(c.offset + |RenderValue(v)|, false))
  {
    var c1 := c.(offset := c.offset + 1);
    Spans();
    match v
    case Null => TagAt(data, c, 0, []);
    case Int(i) =>
      TagAt(data, c, 1, Be(8, i));
      var u := FromBe(Be(8, i));
      BeOfFromBe(Be(8, i));
      TakeBeComplete(data, c1, 8, u);
      SignedFieldExact(i);
    case Real(bits) =>
      TagAt(data, c, 2, Be(8, bits));
      TakeBeComplete(data, c1, 8, bits);
    case Text(s) =>
      TagAt(data, c, 3, Str(s));
      StringComplete(data, c1, s);
    case BlobValue(s) =>
      TagAt(data, c, 4, Str(s));
      StringComplete(data, c1, s);
  }

  lemma StringComplete(data: bytes, c: Cursor, s: bytes)
    requires !c.failed && |s| < 0x1_0000_0000 && At(data, c.offset, Str(s))
    ensures TakeBe(data, c, 4) == (|s|, Cursor(c.offset + 4, false))
    ensures TakeBytes(data, Cursor(c.offset + 4, false), |s|) == (Some(s), Cursor(c.offset + 4 + |s|, false))
    ensures |Str(s)| == 4 + |s|
  {
    Spans();
    AtSplit(data, c.offset, Be(4, |s|), s);
    TakeBeComplete(data, c, 4, |s|);
  }

  lemma StringSound(data: bytes, c: Cursor)
    requires !c.failed
    ensures var (length, c1) := TakeBe(data, c, 4);
            var (slice, c2) := TakeBytes(data, c1, length);
            !c2.failed ==>
              && slice.Some? && |slice.value| < 0x1_0000_0000
              && At(data, c.offset, Str(slice.value))
              && c2 == Cursor(c.offset + |Str(slice.value)|, false)
  {
    Spans();
    var (length, c1) := TakeBe(data, c, 4);
    var (slice, c2) := TakeBytes(data, c1, length);
    if !c2.failed {
      var s := slice.value;
      TakeBeSound(data, c, 4);
      AtSplit(data, c.offset, Be(4, |s|), s);
    }
  }

  lemma ParamSound(data: bytes, c: Cursor)
    requires !c.failed && !TakeParam(data, c).1.failed
    ensures var (v, c') := TakeParam(data, c);
            && FitsValue(v)
            && At(data, c.offset, RenderValue(v))
            && c' == Cursor(c.offset + |RenderValue(v)|, false)
  {
    var (kind, c1) := TakeU8(data, c);
    var (v, c') := TakeParam(data, c);
    Spans();
    match kind {
      case 0 => TagAt(data, c, 0, []);
      case 1 =>
        TakeBeSound(data, c1, 8);
        var u := TakeBe(data, c1, 8).0;
        SameBits(u);
        TagAt(data, c, 1, Be(8, ToInt64(u)));
      case 2 =>
        TakeBeSound(data, c1, 8);
        TagAt(data, c, 2, Be(8, v.bits));
      case 3 =>
        StringSound(data, c1);
        TagAt(data, c, 3, Str(v.data));
      case 4 =>
        StringSound(data, c1);
        TagAt(data, c, 4, Str(v.data));
      case _ =>
    }
  }

  lemma {:induction false} ParamsComplete(data: bytes, c: Cursor, vs: seq<Value>)
    requires !c.failed && FitsValues(vs) && At(data, c.offset, RenderValues(vs))
    ensures TakeParams(data, c, |vs|) == (vs, Cursor(c.offset + |RenderValues(vs)|, false))
    decreases |vs|
  {
    hide TakeParam, RenderValue, At, FitsValue;
    if vs != [] {
      var head, tail := RenderValue(vs[0]), RenderValues(vs[1..]);
      var c1 := Cursor(c.offset + |head|, false);
      AtSplit(data, c.offset, head, tail);
      assert TakeParam(data, c) == (vs[0], c1) by { ParamComplete(data, c, vs[0]); }
      ParamsComplete(data, c1, vs[1..]);
      assert vs == [vs[0]] + vs[1..];
    }
  }

  lemma ValuesCons(data: bytes, offset: nat, v: Value, vs: seq<Value>)
    ensures RenderValues([v] + vs) == RenderValue(v) + RenderValues(vs)
    ensures At(data, offset, RenderValue(v)) && At(data, offset + |RenderValue(v)|, RenderValues(vs)) ==>
            At(data, offset, RenderValues([v] + vs))
    ensures FitsValue(v) && FitsValues(vs) ==> FitsValues([v] + vs)
  {
    hide RenderValue, FitsValue, At;
    assert ([v] + vs)[1..] == vs;
    AtSplit(data, offset, RenderValue(v), RenderValues(vs));
  }

  lemma OpsCons(data: bytes, offset: nat, op: RawOp, ops: seq<RawOp>, live: set<nat>)
    ensures RenderOps([op] + ops) == RenderOp(op) + RenderOps(ops)
    ensures At(data, offset, RenderOp(op)) && At(data, offset + |RenderOp(op)|, RenderOps(ops)) ==>
            At(data, offset, RenderOps([op] + ops))
    ensures FitsOp(op, live) && FitsOps(ops, live) ==> FitsOps([op] + ops, live)
  {
    hide RenderOp, FitsOp, At;
    assert ([op] + ops)[1..] == ops;
    AtSplit(data, offset, RenderOp(op), RenderOps(ops));
  }

  lemma {:induction false} ParamsSound(data: bytes, c: Cursor, count: nat)
    requires c.offset <= |data| && !c.failed && !TakeParams(data, c, count).1.failed
    ensures var (vs, c') := TakeParams(data, c, count);
            && FitsValues(vs)
            && At(data, c.offset, RenderValues(vs))
            && c' == Cursor(c.offset + |RenderValues(vs)|, false)
    decreases count
  {
    hide TakeParam, RenderValue, At, FitsValue;
    if count == 0 {
      AtEnd(data, c.offset);
    } else {
      var (v, c1) := TakeParam(data, c);
      var (vs, c2) := TakeParams(data, c1, count - 1);
      TakeParamAdvances(data, c);
      TakeParamsAdvances(data, c1, count - 1);
      ParamSound(data, c);
      ParamsSound(data, c1, count - 1);
      ValuesCons(data, c.offset, v, vs);
    }
  }

  lemma HeaderComplete(data: bytes, c: Cursor, h: Header)
    requires !c.failed && h.id < 0x1_0000_0000 && h.count < 0x1_0000 && At(data, c.offset, RenderHeader(h))
    ensures TakeHeader(data, c) == (h, Cursor(c.offset + |RenderHeader(h)|, false))
  {
    Spans();
    var c1 := Cursor(c.offset + 1, false);
    var c2 := Cursor(c.offset + 5, false);
    TagAt(data, c, h.countRows, Be(4, h.id) + Be(2, h.count));
    AtSplit(data, c1.offset, Be(4, h.id), Be(2, h.count));
    assert TakeBe(data, c1, 4) == (h.id, c2) by { TakeBeComplete(data, c1, 4, h.id); }
    TakeBeComplete(data, c2, 2, h.count);
  }

  lemma HeaderSound(data: bytes, c: Cursor)
    requires !c.failed && !TakeHeader(data, c).1.failed
    ensures var (h, c') := TakeHeader(data, c);
            && h.id < 0x1_0000_0000 && h.count < 0x1_0000
            && At(data, c.offset, RenderHeader(h))
            && c' == Cursor(c.offset + |RenderHeader(h)|, false) && c'.offset <= |data|
  {
    Spans();
    var (countRows, c1) := TakeU8(data, c);
    var (id, c2) := TakeBe(data, c1, 4);
    var (count, _) := TakeBe(data, c2, 2);
    TakeBeSound(data, c1, 4);
    TakeBeSound(data, c2, 2);
    AtSplit(data, c1.offset, Be(4, id), Be(2, count));
    TagAt(data, c, countRows, Be(4, id) + Be(2, count));
  }

  lemma OpComplete(data: bytes, c: Cursor, op: RawOp, live: set<nat>)
    requires !c.failed && FitsOp(op, live) && At(data, c.offset, RenderOp(op))
    ensures TakeOp(data, c, live) == (Some(op), Cursor(c.offset + |RenderOp(op)|, false))
  {
    match op
    case RawExec(sql) =>
      TagAt(data, c, 1, Str(sql));
      StringComplete(data, Cursor(c.offset + 1, false), sql);
    case RawStmt(_, _, _, _) =>
      StmtComplete(data, c, op, live);
  }

  lemma StmtComplete(data: bytes, c: Cursor, op: RawOp, live: set<nat>)
    requires !c.failed && op.RawStmt? && FitsOp(op, live) && At(data, c.offset, RenderOp(op))
    ensures TakeOp(data, c, live) == (Some(op), Cursor(c.offset + |RenderOp(op)|, false))
  {
    hide TakeParams, TakeHeader, RenderHeader, RenderValues, At, FitsValues;
    var h := Header(op.countRows, op.id, |op.params|);
    var head, tail := RenderHeader(h), RenderValues(op.params);
    var c1 := Cursor(c.offset + 1, false);
    TagAt(data, c, op.kind, head + tail);
    AtSplit(data, c1.offset, head, tail);
    var c2 := Cursor(c1.offset + |head|, false);
    HeaderComplete(data, c1, h);
    ParamsComplete(data, c2, op.params);
  }

  lemma OpSound(data: bytes, c: Cursor, live: set<nat>)
    requires c.offset <= |data| && !c.failed && TakeOp(data, c, live).0.Some?
    ensures var (op, c') := TakeOp(data, c, live);
            && FitsOp(op.value, live)
            && At(data, c.offset, RenderOp(op.value))
            && c' == Cursor(c.offset + |RenderOp(op.value)|, false) && c'.offset <= |data|
  {
    var (kind, c1) := TakeU8(data, c);
    if kind == 1 {
      StringSound(data, c1);
      TagAt(data, c, 1, Str(TakeString(data, c1).0.value));
    } else {
      TakeHeaderAdvances(data, c1);
      StmtSound(data, c, live);
    }
  }

  lemma StmtSound(data: bytes, c: Cursor, live: set<nat>)
    requires c.offset < |data| && !c.failed && TakeOp(data, c, live).0.Some? && TakeU8(data, c).0 != 1
    ensures var (op, c') := TakeOp(data, c, live);
            && FitsOp(op.value, live)
            && At(data, c.offset, RenderOp(op.value))
            && c' == Cursor(c.offset + |RenderOp(op.value)|, false) && c'.offset <= |data|
  {
    hide TakeParams, TakeHeader, RenderHeader, RenderValues, FitsValues, At;
    var (kind, c1) := TakeU8(data, c);
    var (h, c2) := TakeHeader(data, c1);
    var (params, c3) := TakeParams(data, c2, h.count);
    HeaderSound(data, c1);
    TakeParamsAdvances(data, c2, h.count);
    ParamsSound(data, c2, h.count);
    var head, tail := RenderHeader(h), RenderValues(params);
    AtSplit(data, c1.offset, head, tail);
    TagAt(data, c, kind, head + tail);
  }

  lemma {:induction false} OpsComplete(data: bytes, c: Cursor, ops: seq<RawOp>, live: set<nat>)
    requires !c.failed && FitsOps(ops, live) && At(data, c.offset, RenderOps(ops))
    ensures DecodeOps(data, c, |ops|, live) == (Some(ops), Cursor(c.offset + |RenderOps(ops)|, false))
    decreases |ops|
  {
    hide TakeOp, RenderOp, At, FitsOp;
    if ops != [] {
      var head, tail := RenderOp(ops[0]), RenderOps(ops[1..]);
      var c1 := Cursor(c.offset + |head|, false);
      AtSplit(data, c.offset, head, tail);
      assert TakeOp(data, c, live) == (Some(ops[0]), c1) by { OpComplete(data, c, ops[0], live); }
      OpsComplete(data, c1, ops[1..], live);
      assert ops == [ops[0]] + ops[1..];
    }
  }

  lemma {:induction false} OpsSound(data: bytes, c: Cursor, count: nat, live: set<nat>)
    requires c.offset <= |data| && !c.failed && DecodeOps(data, c, count, live).0.Some?
    ensures var (ops, c') := DecodeOps(data, c, count, live);
            && FitsOps(ops.value, live) && |ops.value| == count
            && At(data, c.offset, RenderOps(ops.value))
            && c' == Cursor(c.offset + |RenderOps(ops.value)|, false)
    decreases count
  {
    hide TakeOp, RenderOp, At, FitsOp;
    if count == 0 {
      AtEnd(data, c.offset);
    } else {
      var (op, c1) := TakeOp(data, c, live);
      var (ops, c2) := DecodeOps(data, c1, count - 1, live);
      OpSound(data, c, live);
      OpsSound(data, c1, count - 1, live);
      OpsCons(data, c.offset, op.value, ops.value, live);
    }
  }

  lemma AtEnd(data: bytes, offset: nat)
    requires offset <= |data|
    ensures At(data, offset, [])
  {
  }

  /** The decoder accepts exactly the renderings of well-formed operation lists, and returns the list
      that was rendered.  Bytes after the last operation are ignored. */
  lemma DecodeRunExact(data: bytes, ops: seq<RawOp>, live: set<nat>)
    requires |ops| < 0x1_0000_0000
    ensures DecodeRun(data, live).0 == Some(ops) <==>
            FitsOps(ops, live) && At(data, 0, Be(4, |ops|) + RenderOps(ops))
    ensures DecodeRun(data, live).0 == Some(ops) ==>
            DecodeRun(data, live).1 == Cursor(4 + |RenderOps(ops)|, false)
  {
    Spans();
    var start := Cursor(0, false);
    AtSplit(data, 0, Be(4, |ops|), RenderOps(ops));
    hide DecodeOps, RenderOps, Span, Be, FromBe;
    var (count, c) := TakeBe(data, start, 4);
    if DecodeRun(data, live).0 == Some(ops) {
      TakeBeSound(data, start, 4);
      OpsSound(data, c, count, live);
    }
    if FitsOps(ops, live) && At(data, 0, Be(4, |ops|) + RenderOps(ops)) {
      TakeBeComplete(data, start, 4, |ops|);
      OpsComplete(data, c, ops, live);
    }
  }

  /** Every statement operation names one of the ids. */
  predicate Names(ops: seq<RawOp>, live: set<nat>) {
    forall op <- ops :: op.RawStmt? ==> op.id in live
  }

  /** What is accepted against fewer live slots is the same against more. */
  lemma {:induction false} MoreLive(data: bytes, c: Cursor, count: nat, live: set<nat>, more: set<nat>)
    requires live <= more && DecodeOps(data, c, count, live).0.Some?
    ensures DecodeOps(data, c, count, more) == DecodeOps(data, c, count, live)
    decreases count
  {
    hide TakeHeader, TakeParams;
    if count > 0 {
      assert TakeOp(data, c, more) == TakeOp(data, c, live);
      hide TakeOp;
      MoreLive(data, TakeOp(data, c, live).1, count - 1, live, more);
    }
  }

  /** Fewer live slots only refuse: a run is decoded as with more of them exactly if it names only
      these. */
  lemma FewerLive(data: bytes, live: set<nat>, more: set<nat>)
    requires live <= more
    ensures DecodeRun(data, live).0.Some? ==>
            DecodeRun(data, live) == DecodeRun(data, more) && Names(DecodeRun(data, live).0.value, live)
  {
    hide DecodeOps, FromBe;
    var (count, c) := TakeBe(data, Cursor(0, false), 4);
    if DecodeRun(data, live).0.Some? {
      MoreLive(data, c, count, live, more);
      DecodeOpsSafe(data, c, count, live);
    }
  }

  // ---------- What the encoder sends ----------

  /** The value the decoder binds for an encoded parameter. */
  function WireValue(t: Term): Value
    requires !t.Other?
  {
    match t
    case Atom(name) => if name == NIL || name == UNDEFINED then Null else Text(name)
    case Integer(i) => Int(ToInt64(FromBe(Be(8, i))))
    case Float(bits) => Real(bits)
    case Binary(data) => Text(data)
    case Blob(data) => BlobValue(data)
    case IoList(data) => Text(data)
  }

  function WireValues(ts: seq<Term>): (vs: seq<Value>)
    requires forall t <- ts :: !t.Other?
    ensures |vs| == |ts|
    ensures forall i | 0 <= i < |ts| :: vs[i] == WireValue(ts[i])
  {
    if ts == [] then [] else [WireValue(ts[0])] + WireValues(ts[1..])
  }

  function WireOp(op: Op): RawOp
    requires Encodable(op)
  {
    match op
    case Exec(sql) => RawExec(sql)
    case Stmt(countRows, id, params) => RawStmt(0, if countRows then 1 else 0, id, WireValues(params))
  }

  function WireOps(ops: seq<Op>): (raw: seq<RawOp>)
    requires forall op <- ops :: Encodable(op)
    ensures |raw| == |ops|
    ensures forall i | 0 <= i < |ops| :: raw[i] == WireOp(ops[i])
  {
    if ops == [] then [] else [WireOp(ops[0])] + WireOps(ops[1..])
  }

  lemma EncodeParamRenders(t: Term)
    requires !t.Other?
    ensures EncodeParam(t) == RenderValue(WireValue(t))
  {
    if t.Integer? {
      FromBeOfBe(8, t.i);
      SameBits(FromBe(Be(8, t.i)));
      BeOfFromBe(Be(8, t.i));
    }
  }

  lemma {:induction false} EncodeParamsRender(ts: seq<Term>)
    requires forall t <- ts :: !t.Other?
    ensures EncodeParams(ts) == RenderValues(WireValues(ts))
  {
    if ts != [] {
      EncodeParamRenders(ts[0]);
      EncodeParamsRender(ts[1..]);
      assert WireValues(ts)[1..] == WireValues(ts[1..]);
    }
  }

  lemma EncodeOpRenders(op: Op)
    requires Encodable(op)
    ensures EncodeOp(op) == RenderOp(WireOp(op))
  {
    hide EncodeParams, RenderValues;
    if op.Stmt? {
      EncodeParamsRender(op.params);
    }
  }

  lemma {:induction false} EncodeOpsRender(ops: seq<Op>)
    requires forall op <- ops :: Encodable(op)
    ensures EncodeOps(ops) == RenderOps(WireOps(ops))
  {
    if ops != [] {
      EncodeOpRenders(ops[0]);
      EncodeOpsRender(ops[1..]);
      assert WireOps(ops)[1..] == WireOps(ops[1..]);
    }
  }

  predicate FitsTerm(t: Term) {
    match t
    case Atom(name) => |name| < 0x1_0000_0000
    case Binary(data) => |data| < 0x1_0000_0000
    case Blob(data) => |data| < 0x1_0000_0000
    case IoList(data) => |data| < 0x1_0000_0000
    case Other => false
    case _ => true
  }

  /** An operation within the field widths that names a prepared statement. */
  predicate Sendable(op: Op, live: set<nat>) {
    match op
    case Exec(sql) => |sql| < 0x1_0000_0000
    case Stmt(_, id, params) =>
      && id in live && id < 0x1_0000_0000
      && |params| < 0x1_0000
      && (forall t <- params :: FitsTerm(t))
  }

  /** Round trip: the decoder, started behind the tag of an encoded run request, returns the encoded
      operations, does not fail and stops at the end of the request. */
  lemma WireRoundTrip(ops: seq<Op>, live: set<nat>)
    requires |ops| < 0x1_0000_0000 && forall op <- ops :: Sendable(op, live)
    ensures forall op <- ops :: Encodable(op)
    ensures var request := EncodeRun(ops);
            && request[0] == 82
            && DecodeRun(request[1..], live) == (Some(WireOps(ops)), Cursor(|request| - 1, false))
  {
    assert forall op <- ops :: Encodable(op) by {
      forall op | op in ops ensures Encodable(op) { assert Sendable(op, live); }
    }
    var raw := WireOps(ops);
    assert FitsOps(raw, live) by {
      forall r | r in raw ensures FitsOp(r, live) {
        var i :| 0 <= i < |raw| && raw[i] == r;
        assert Sendable(ops[i], live);
        WireOpFits(ops[i], live);
      }
    }
    hide DecodeRun, FitsOp, Sendable;
    var data := EncodeRun(ops)[1..];
    assert data == Be(4, |raw|) + RenderOps(raw) by { EncodeOpsRender(ops); }
    assert At(data, 0, Be(4, |raw|) + RenderOps(raw));
    DecodeRunExact(data, raw, live);
  }

  lemma WireOpFits(op: Op, live: set<nat>)
    requires Sendable(op, live)
    ensures FitsOp(WireOp(op), live)
  {
    if op.Stmt? {
      forall v | v in WireValues(op.params) ensures FitsValue(v) {
        var i :| 0 <= i < |op.params| && WireValues(op.params)[i] == v;
        assert FitsTerm(op.params[i]);
        if op.params[i].Integer? {
          SignedFieldExact(op.params[i].i);
        }
      }
    }
  }

  /** The decoded parameter is the captured one exactly for the terms that are already values: an
      integer must fit 64 bits, and `undefined` is sent as a null. */
  lemma WireValueExact(t: Term)
    requires !t.Other?
    ensures WireValue(t) ==
            (match t
             case Integer(i) => Int(i)
             case Atom(name) => if name == NIL then Null else Text(name)
             case Float(bits) => Real(bits)
             case Binary(data) => Text(data)
             case Blob(data) => BlobValue(data)
             case IoList(data) => Text(data))
        <==> (t.Integer? ==> IsInt64(t.i)) && t != Atom(UNDEFINED)
  {
    if t.Integer? {
      SignedFieldExact(t.i);
    }
  }

  // ---------- The prepare request ----------

  const PREPARE_TAG: byte := 80

  /** `prepare`: the tag, the statement id and the SQL. */
  function EncodePrepare(id: nat, sql: bytes): bytes {
    [PREPARE_TAG] + (Be(4, id) + Str(sql))
  }

  /** What `handle_prepare` reads: the id, and the SQL or None for a malformed request. */
  function DecodePrepare(data: bytes): (nat, Option<bytes>) {
    var (id, c) := TakeBe(data, Cursor(0, false), 4);
    (id, TakeString(data, c).0)
  }

  /** A prepare request is read as an id and a text exactly if it starts with their encoding; behind its
      tag, every encoded request is read as what was sent. */
  lemma PrepareExact(data: bytes, id: nat, sql: bytes)
    requires id < 0x1_0000_0000
    ensures DecodePrepare(data) == (id, Some(sql)) <==> |sql| < 0x1_0000_0000 && At(data, 0, Be(4, id) + Str(sql))
    ensures |sql| < 0x1_0000_0000 ==> DecodePrepare(EncodePrepare(id, sql)[1..]) == (id, Some(sql))
    ensures EncodePrepare(id, sql)[0] == 80
  {
    if |sql| < 0x1_0000_0000 {
      PrepareComplete(EncodePrepare(id, sql)[1..], id, sql);
      if At(data, 0, Be(4, id) + Str(sql)) {
        PrepareComplete(data, id, sql);
      }
    }
    if DecodePrepare(data) == (id, Some(sql)) {
      PrepareSound(data);
    }
  }

  lemma PrepareComplete(data: bytes, id: nat, sql: bytes)
    requires id < 0x1_0000_0000 && |sql| < 0x1_0000_0000 && At(data, 0, Be(4, id) + Str(sql))
    ensures DecodePrepare(data) == (id, Some(sql))
  {
    Spans();
    var start := Cursor(0, false);
    AtSplit(data, 0, Be(4, id), Str(sql));
    hide Be, FromBe, Span, Str, At;
    TakeBeComplete(data, start, 4, id);
    StringComplete(data, Cursor(4, false), sql);
  }

  lemma PrepareSound(data: bytes)
    requires DecodePrepare(data).1.Some?
    ensures var (id, sql) := DecodePrepare(data);
            |sql.value| < 0x1_0000_0000 && At(data, 0, Be(4, id) + Str(sql.value))
  {
    var start := Cursor(0, false);
    var (id, c) := TakeBe(data, start, 4);
    assert !c.failed;
    TakeBeSound(data, start, 4);
    StringSound(data, c);
    AtSplit(data, 0, Be(4, id), Str(TakeString(data, c).0.value));
  }

  // ---------- The bytes themselves ----------

  /** An atom is sent as a null exactly if it is named `nil` or `undefined`; any other one as its text. */
  lemma AtomBytes(name: bytes)
    ensures EncodeParam(Atom(name)) == [0] <==>
            name == [110, 105, 108] || name == [117, 110, 100, 101, 102, 105, 110, 101, 100]
    ensures EncodeParam(Atom(name)) != [0] ==> EncodeParam(Atom(name)) == [3] + (Be(4, |name|) + name)
    ensures WireValue(Atom(name)) == Null <==> EncodeParam(Atom(name)) == [0]
  {
    assert |[3] + Str(name)| > 1;
  }

  lemma SmallBe(v: byte)
    ensures Be(1, v as int) == [v] && Be(2, v as int) == [0, v] && Be(4, v as int) == [0, 0, 0, v]
    ensures Be(8, v as int) == [0, 0, 0, 0, 0, 0, 0, v]
  {
    assert Be(0, 0) == [] && Be(1, 0) == [0] && Be(2, 0) == [0, 0] && Be(3, 0) == [0, 0, 0];
    assert Be(4, 0) == [0, 0, 0, 0] && Be(5, 0) == [0, 0, 0, 0, 0] && Be(6, 0) == [0, 0, 0, 0, 0, 0];
    assert Be(7, 0) == [0, 0, 0, 0, 0, 0, 0];
    assert (v as int) / 256 == 0 && (v as int) % 256 == v as int;
  }

  lemma LargeBe()
    ensures Be(4, 258) == [0, 0, 1, 2]
    ensures Be(8, -2) == [255, 255, 255, 255, 255, 255, 255, 254]
  {
    SmallBe(1);
    assert Be(3, 1) == [0, 0, 1];
    assert Be(1, -1) == [255] && Be(2, -1) == [255, 255] && Be(3, -1) == [255, 255, 255];
    assert Be(4, -1) == [255, 255, 255, 255] && Be(5, -1) == [255, 255, 255, 255, 255];
    assert Be(6, -1) == [255, 255, 255, 255, 255, 255] && Be(7, -1) == [255, 255, 255, 255, 255, 255, 255];
  }

  /** One parameter of each kind, byte by byte. */
  lemma ParamBytes(nul: Term, int_: Term, float: Term, text: Term, blob: Term)
    requires nul == Atom([110, 105, 108]) && int_ == Integer(-2) && float == Float(7)
    requires text == Binary([98]) && blob == Blob([99])
    ensures EncodeParam(nul) == [0]
    ensures EncodeParam(int_) == [1, 255, 255, 255, 255, 255, 255, 255, 254]
    ensures EncodeParam(float) == [2, 0, 0, 0, 0, 0, 0, 0, 7]
    ensures EncodeParam(text) == [3, 0, 0, 0, 1, 98]
    ensures EncodeParam(blob) == [4, 0, 0, 0, 1, 99]
  {
    hide Be;
    AtomBytes([110, 105, 108]);
    TextBytes(text, blob);
    LargeBe();
    SmallBe(7);
    assert EncodeParam(int_) == [1] + Be(8, -2);
    assert EncodeParam(float) == [2] + Be(8, 7);
  }

  lemma TextBytes(text: Term, blob: Term)
    requires text == Binary([98]) && blob == Blob([99])
    ensures EncodeParam(text) == [3, 0, 0, 0, 1, 98]
    ensures EncodeParam(blob) == [4, 0, 0, 0, 1, 99]
  {
    hide Be;
    SmallBe(1);
    assert EncodeParam(text) == [3] + (Be(4, 1) + [98]);
    assert EncodeParam(blob) == [4] + (Be(4, 1) + [99]);
  }

  lemma ParamsCons(t: Term, ts: seq<Term>)
    requires !t.Other? && forall u <- ts :: !u.Other?
    ensures EncodeParams([t] + ts) == EncodeParam(t) + EncodeParams(ts)
  {
    hide EncodeParam;
    assert ([t] + ts)[1..] == ts;
  }

  /** A list with a parameter of each kind, byte by byte. */
  lemma ParamsBytes(params: seq<Term>)
    requires params == [Atom([110, 105, 108]), Integer(-2), Float(7), Binary([98]), Blob([99])]
    ensures EncodeParams(params)
         == [0]
          + ([1, 255, 255, 255, 255, 255, 255, 255, 254]
          + ([2, 0, 0, 0, 0, 0, 0, 0, 7]
          + ([3, 0, 0, 0, 1, 98]
          + ([4, 0, 0, 0, 1, 99] + []))))
  {
    var a, b, c, d, e := params[0], params[1], params[2], params[3], params[4];
    ParamBytes(a, b, c, d, e);
    hide EncodeParam;
    assert EncodeParams([]) == [];
    ParamsCons(e, []);
    ParamsCons(d, [e] + []);
    ParamsCons(c, [d] + ([e] + []));
    ParamsCons(b, [c] + ([d] + ([e] + [])));
    ParamsCons(a, [b] + ([c] + ([d] + ([e] + []))));
    assert params == [a] + ([b] + ([c] + ([d] + ([e] + []))));
  }

  lemma OpBytes(sql: Op, statement: Op)
    requires sql == Exec([97]) && statement == Stmt(true, 258, [Binary([98])])
    ensures EncodeOp(sql) == [1] + ([0, 0, 0, 1] + [97])
    ensures EncodeOp(statement) == [0] + (([1] + ([0, 0, 1, 2] + [0, 1])) + [3, 0, 0, 0, 1, 98])
  {
    var text := Binary([98]);
    SmallBe(1);
    LargeBe();
    TextBytes(text, Blob([99]));
    hide EncodeParam, Be;
    assert [text][1..] == [] && EncodeParams([]) == [];
    assert EncodeParams([text]) == EncodeParam(text) + [];
  }

  /** A whole request byte by byte: SQL to execute, then a statement that counts its rows. */
  lemma RunBytes(sql: Op, statement: Op)
    requires sql == Exec([97]) && statement == Stmt(true, 258, [Binary([98])])
    ensures EncodeRun([sql, statement])
         == [82] + ([0, 0, 0, 2]
          + (([1] + ([0, 0, 0, 1] + [97]))
          + ([0] + (([1] + ([0, 0, 1, 2] + [0, 1])) + [3, 0, 0, 0, 1, 98]))))
  {
    hide EncodeOp, Be;
    OpBytes(sql, statement);
    SmallBe(2);
    OpsOfTwo(sql, statement);
  }

  lemma OpsOfTwo(first: Op, second: Op)
    requires Encodable(first) && Encodable(second)
    ensures EncodeOps([first, second]) == EncodeOp(first) + EncodeOp(second)
  {
    hide EncodeOp;
    assert [first, second][1..] == [second] && [second][1..] == [] && EncodeOps([]) == [];
    assert EncodeOps([second]) == EncodeOp(second) + [];
  }

  lemma PrepareBytes()
    ensures EncodePrepare(258, [97]) == [80, 0, 0, 1, 2, 0, 0, 0, 1, 97]
  {
    hide Be;
    LargeBe();
    SmallBe(1);
    assert EncodePrepare(258, [97]) == [80] + (Be(4, 258) + (Be(4, 1) + [97]));
  }
}
