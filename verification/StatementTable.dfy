/** The native process's statement table and the benchmark's registry of statement ids, which must
    stay in step although neither side ever reads the other. */
module StatementTable {
  import opened Wrappers
  import opened Arithmetic
  import opened Bytes
  import opened Wire

  /** SQL execution, abstractly.  `blank` tells SQL text that compiles to no statement at all
      (empty or only comments): preparing it succeeds and yields a null handle. */
  datatype Engine<!Db> = Engine(
    exec: (Db, bytes) -> (Db, bool),
    step: (Db, bytes, seq<Value>) -> (Db, nat, bool),
    arity: bytes -> nat,
    blank: bytes -> bool,
    prepare: (Db, bytes) -> bool
  )

  /** A slot of `statements`: null, or a prepared statement and the values bound to it so far. */
  datatype Slot = NoStatement | Prepared(sql: bytes, bound: seq<Value>)

  type Registry = map<bytes, nat>

  const WORD: nat := 0x1_0000_0000
  const FIRST_CAPACITY: nat := 16

  // ---------- Growth ----------

  /** The capacity after `rounds` doublings in a 32-bit unsigned integer. */
  function Doublings(capacity: nat, rounds: nat): (c: nat)
    ensures c < WORD || rounds == 0
  {
    if rounds == 0 then capacity else Doublings(capacity, rounds - 1) * 2 % WORD
  }

  /** A capacity the table can have once it is not empty. */
  ghost predicate IsCapacity(c: nat) {
    exists n :: 4 <= n <= 31 && c == Pow2(n)
  }

  lemma Pow2Values()
    ensures Pow2(4) == FIRST_CAPACITY && Pow2(31) == 0x8000_0000 && Pow2(32) == WORD
  {
    assert Pow2(8) == 256 by { assert Pow2(4) == 16; assert Pow2(6) == 64; }
    assert Pow2(16) == 65536 by { assert Pow2(10) == 1024; assert Pow2(12) == 4096; assert Pow2(14) == 16384; }
    assert Pow2(24) == 0x100_0000 by {
      assert Pow2(18) == 0x4_0000;
      assert Pow2(20) == 0x10_0000;
      assert Pow2(22) == 0x40_0000;
    }
    assert Pow2(30) == 0x4000_0000 by { assert Pow2(26) == 0x400_0000; assert Pow2(28) == 0x1000_0000; }
  }

  /** Doubling multiplies by powers of two until the top bit is lost; then it stays at zero. */
  lemma {:induction false} DoublingsOfPower(n: nat, rounds: nat)
    requires 4 <= n <= 31
    ensures Doublings(Pow2(n), rounds) == if n + rounds <= 31 then Pow2(n + rounds) else 0
  {
    Pow2Values();
    hide Pow2;
    if rounds == 0 {
      Pow2Grows(n, 31);
    } else {
      DoublingsOfPower(n, rounds - 1);
      if n + rounds <= 32 {
        Pow2Next(n + rounds - 1);
        Pow2Grows(n + rounds, 32);
      }
      if n + rounds <= 31 {
        Pow2Grows(n + rounds, 31);
      }
    }
  }

  /** The doubling loop of `handle_prepare` reaches a capacity above `id` exactly for ids below 2^31:
      from 2^31 on the 32-bit capacity wraps to zero first and the loop would never end. */
  lemma DoublingTerminatesExactly(capacity: nat, id: nat)
    requires IsCapacity(capacity)
    ensures (exists rounds: nat :: Doublings(capacity, rounds) > id) <==> id < 0x8000_0000
  {
    var n :| 4 <= n <= 31 && capacity == Pow2(n);
    Pow2Values();
    if id < 0x8000_0000 {
      if n == 31 {
        DoublingsOfPower(n, 0);
        assert Doublings(capacity, 0) > id;
      } else {
        DoublingsOfPower(n, 31 - n);
        assert Doublings(capacity, 31 - n) > id;
      }
    } else {
      forall rounds: nat ensures Doublings(capacity, rounds) <= id {
        DoublingsOfPower(n, rounds);
        if n + rounds <= 31 {
          Pow2Grows(n + rounds, 31);
        }
      }
    }
  }

  /** The capacity the loop stops at. */
  function Grown(capacity: nat, id: nat): (c: nat)
    requires 0 < capacity && id < 0x8000_0000
    ensures c > id && c >= capacity
    decreases id - capacity
  {
    if capacity > id then capacity else Grown(capacity * 2 % WORD, id)
  }

  lemma {:induction false} GrownIsCapacity(capacity: nat, id: nat)
    requires IsCapacity(capacity) && id < 0x8000_0000
    ensures IsCapacity(Grown(capacity, id))
    decreases id - capacity
  {
    if capacity <= id {
      hide Pow2;
      var n :| 4 <= n <= 31 && capacity == Pow2(n);
      Pow2Values();
      assert n != 31;
      Pow2Next(n);
      Pow2Grows(n + 1, 31);
      GrownIsCapacity(capacity * 2 % WORD, id);
    }
  }

  /** A table with room for `id`: old slots in place, new slots null. */
  function Extended(slots: seq<Slot>, id: nat): (s: seq<Slot>)
    requires id < 0x8000_0000
    ensures id < |s| && slots <= s
    ensures forall i | |slots| <= i < |s| :: s[i] == NoStatement
  {
    if id < |slots| then slots
    else
      var capacity := Grown(if |slots| > 0 then |slots| else FIRST_CAPACITY, id);
      slots + seq(capacity - |slots|, _ => NoStatement)
  }

  /** The handle `sqlite3_prepare_v3` stores: null on an error and for blank SQL. */
  function Handle<Db>(e: Engine<Db>, sql: bytes, ok: bool): Slot {
    if ok && !e.blank(sql) then Prepared(sql, seq(e.arity(sql), _ => Null)) else NoStatement
  }

  /** `handle_prepare`. */
  function Prepare<Db>(e: Engine<Db>, slots: seq<Slot>, id: nat, sql: bytes, ok: bool): seq<Slot>
    requires id < 0x8000_0000
  {
    Extended(slots, id)[id := Handle(e, sql, ok)]
  }

  // ---------- The registry ----------

  /** Registry and table together; `names` is the history of registered SQL, in the order of the ids. */
  datatype Table = Table(registry: Registry, slots: seq<Slot>, names: seq<bytes>)

  /** `native_statement`: None where the failed prepare raises.  `ok` is the process's answer. */
  function Intern<Db>(e: Engine<Db>, t: Table, sql: bytes, ok: bool): (Option<nat>, Table)
    requires |t.registry| < 0x8000_0000
  {
    if sql in t.registry then (Some(t.registry[sql]), t)
    else
      var id := |t.registry|;
      var slots := Prepare(e, t.slots, id, sql, ok);
      if ok then (Some(id), Table(t.registry[sql := id], slots, t.names + [sql]))
      else (None, t.(slots := slots))
  }

  /** A slot that holds `sql` and one value per placeholder. */
  predicate Holds<Db>(e: Engine<Db>, slot: Slot, sql: bytes) {
    slot.Prepared? && slot.sql == sql && |slot.bound| == e.arity(sql)
  }

  /** The ids are exactly 0..n-1, one for each registered SQL. */
  predicate IdsInOrder(registry: Registry, names: seq<bytes>) {
    && |names| == |registry|
    && (forall i | 0 <= i < |names| :: names[i] in registry && registry[names[i]] == i)
    && (forall sql <- registry :: registry[sql] < |names| && names[registry[sql]] == sql)
  }

  /** Each id names the slot that holds its SQL (null for blank SQL); all other slots are null. */
  ghost predicate SlotsHold<Db>(e: Engine<Db>, names: seq<bytes>, slots: seq<Slot>) {
    && |names| <= |slots|
    && (forall i | 0 <= i < |names| ::
          if e.blank(names[i]) then slots[i] == NoStatement else Holds(e, slots[i], names[i]))
    && (forall i | |names| <= i < |slots| :: slots[i] == NoStatement)
    && (|slots| == 0 || IsCapacity(|slots|))
  }

  ghost predicate InStep<Db>(e: Engine<Db>, t: Table) {
    IdsInOrder(t.registry, t.names) && SlotsHold(e, t.names, t.slots)
  }

  lemma ExtendedIsCapacity(slots: seq<Slot>, id: nat)
    requires id < 0x8000_0000 && (|slots| == 0 || IsCapacity(|slots|))
    ensures IsCapacity(|Extended(slots, id)|)
  {
    Pow2Values();
    assert IsCapacity(FIRST_CAPACITY);
    if id >= |slots| {
      GrownIsCapacity(if |slots| > 0 then |slots| else FIRST_CAPACITY, id);
    }
  }

  /** Preparing id n of a table whose slots from n on are null changes slot n only. */
  lemma PrepareEffect<Db>(e: Engine<Db>, slots: seq<Slot>, id: nat, sql: bytes, ok: bool)
    requires id < 0x8000_0000 && id <= |slots| && (|slots| == 0 || IsCapacity(|slots|))
    requires forall i | id <= i < |slots| :: slots[i] == NoStatement
    ensures var s := Prepare(e, slots, id, sql, ok);
            && id < |s| && s[..id] == slots[..id] && s[id] == Handle(e, sql, ok)
            && (forall i | id < i < |s| :: s[i] == NoStatement)
            && IsCapacity(|s|)
  {
    ExtendedIsCapacity(slots, id);
    hide Grown, IsCapacity;
  }

  lemma SlotsStillHold<Db>(e: Engine<Db>, names: seq<bytes>, slots: seq<Slot>, sql: bytes, ok: bool)
    requires SlotsHold(e, names, slots) && |names| < 0x8000_0000
    ensures SlotsHold(e, if ok then names + [sql] else names, Prepare(e, slots, |names|, sql, ok))
  {
    hide Prepare, IsCapacity;
    PrepareEffect(e, slots, |names|, sql, ok);
    var s := Prepare(e, slots, |names|, sql, ok);
    forall i | 0 <= i < |names| ensures s[i] == slots[i] {
      assert s[..|names|][i] == slots[..|names|][i];
    }
  }

  /** One request keeps registry and table in step, whether or not the prepare succeeds, and never
      changes an id handed out before. */
  lemma InternKeepsStep<Db>(e: Engine<Db>, t: Table, sql: bytes, ok: bool)
    requires InStep(e, t) && |t.registry| < 0x8000_0000
    ensures var (id, t') := Intern(e, t, sql, ok);
            && InStep(e, t')
            && t.names <= t'.names
            && (id.Some? ==> id.value < |t'.names| && t'.names[id.value] == sql)
            && |t'.registry| <= |t.registry| + 1
            && (id.None? <==> sql !in t.registry && !ok)
  {
    hide Prepare, SlotsHold;
    if sql !in t.registry {
      SlotsStillHold(e, t.names, t.slots, sql, ok);
    }
  }

  /** The registry and table after a run of requests, started empty. */
  function InternAll<Db>(e: Engine<Db>, requests: seq<(bytes, bool)>): (t: Table)
    requires |requests| <= 0x8000_0000
    ensures |t.registry| <= |requests|
  {
    if requests == [] then Table(map[], [], [])
    else
      var t := InternAll(e, requests[..|requests| - 1]);
      var (sql, ok) := requests[|requests| - 1];
      Intern(e, t, sql, ok).1
  }

  /** Over every run the two sides stay in step. */
  lemma {:induction false} RunsKeepStep<Db>(e: Engine<Db>, requests: seq<(bytes, bool)>)
    requires |requests| <= 0x8000_0000
    ensures InStep(e, InternAll(e, requests))
  {
    if requests != [] {
      var front := requests[..|requests| - 1];
      RunsKeepStep(e, front);
      var (sql, ok) := requests[|requests| - 1];
      InternKeepsStep(e, InternAll(e, front), sql, ok);
    }
  }

  /** The ids `decode_ops` accepts. */
  function LiveIds(slots: seq<Slot>): set<nat> {
    set i: nat | i < |slots| && slots[i].Prepared?
  }
}
