/** The cache of warmed searchers: its operations, and the accounting that every run keeps. */
module SearcherCache {
  import opened Wrappers

  datatype Policy = Lru | Lfu | Ttl | BySize

  datatype Strategy = Eager | Lazy | Scheduled | Predictive

  datatype Config = Config(cache_size_limit: nat, ttl_seconds: nat, strategy: Strategy, policy: Policy,
                           background_warming: bool)

  /** Times are nanoseconds on the monotonic clock. */
  datatype Cached<T> = Cached(searcher: T, created_at: int, access_count: nat, last_accessed: int, size_bytes: nat)

  datatype Stats = Stats(hits: nat, misses: nat, evictions: nat, warmings: nat, warming_ms: nat, memory: nat)

  type Cache<T> = map<string, Cached<T>>

  datatype State<T> = State(cache: Cache<T>, stats: Stats, config: Config)

  const MIB: nat := 1024 * 1024

  function ParsePolicy(name: string): Option<Policy> {
    match name
    case "lru" => Some(Lru)
    case "lfu" => Some(Lfu)
    case "ttl" => Some(Ttl)
    case "size" => Some(BySize)
    case _ => None
  }

  function ParseStrategy(name: string): Option<Strategy> {
    match name
    case "eager" => Some(Eager)
    case "lazy" => Some(Lazy)
    case "scheduled" => Some(Scheduled)
    case "predictive" => Some(Predictive)
    case _ => None
  }

  /** Time differences never go below zero. */
  function Since(now: int, then_: int): nat {
    if now > then_ then now - then_ else 0
  }

  predicate Expired<T>(config: Config, now: int, entry: Cached<T>) {
    match config.policy
    case Ttl => Since(now, entry.created_at) > config.ttl_seconds * 1_000_000_000
    case Lru => Since(now, entry.last_accessed) > config.ttl_seconds * 1_000_000_000
    case _ => false
  }

  function SaturatingSub(a: nat, b: nat): nat {
    if b <= a then a - b else 0
  }

  // ---------- Sums of sizes ----------

  ghost function Sizes<T(!new)>(cache: Cache<T>): nat
    decreases |cache|
  {
    if cache == map[] then 0
    else
      var key :| key in cache;
      cache[key].size_bytes + Sizes(cache - {key})
  }

  /** Any entry can be counted first. */
  lemma {:induction false} SizesWithout<T(!new)>(cache: Cache<T>, key: string)
    requires key in cache
    ensures Sizes(cache) == cache[key].size_bytes + Sizes(cache - {key})
    decreases |cache|
  {
    var first :| first in cache && Sizes(cache) == cache[first].size_bytes + Sizes(cache - {first});
    if first != key {
      SizesWithout(cache - {first}, key);
      SizesWithout(cache - {key}, first);
      assert cache - {first} - {key} == cache - {key} - {first};
    }
  }

  lemma SizesInsert<T(!new)>(cache: Cache<T>, key: string, entry: Cached<T>)
    ensures Sizes(cache[key := entry])
         == Sizes(cache) + entry.size_bytes - (if key in cache then cache[key].size_bytes else 0)
  {
    var grown := cache[key := entry];
    SizesWithout(grown, key);
    assert grown - {key} == cache - {key};
    if key in cache {
      SizesWithout(cache, key);
    } else {
      assert cache - {key} == cache;
    }
  }

  // ---------- Operations on states ----------

  /** `Warm` carries the searcher of the index's reader, if it could be opened, and the times read;
      `Evict` the configuration, which is read before the cache is locked and may be out of date. */
  datatype Op<T> =
    | Configure(limit_mb: nat, ttl: nat, strategy_name: string, policy_name: string, background: bool)
    | Warm(key: string, reader: Option<T>, created: int, accessed: int, elapsed_ms: nat)
    | Get(key: string, now: int)
    | Evict(force_all: bool, snapshot: Config, now: int)
    | Clear

  function AfterWarm<T>(s: State<T>, key: string, searcher: T, created: int, accessed: int, elapsed_ms: nat): State<T> {
    s.(cache := s.cache[key := Cached(searcher, created, 0, accessed, MIB)],
       stats := s.stats.(warmings := s.stats.warmings + 1, warming_ms := s.stats.warming_ms + elapsed_ms,
                         memory := s.stats.memory + MIB))
  }

  function AfterGet<T>(s: State<T>, key: string, now: int): State<T> {
    if key in s.cache then
      var entry := s.cache[key];
      s.(cache := s.cache[key := entry.(access_count := entry.access_count + 1, last_accessed := now)],
         stats := s.stats.(hits := s.stats.hits + 1))
    else s.(stats := s.stats.(misses := s.stats.misses + 1))
  }

  function Retained<T>(s: State<T>, config: Config, now: int): Cache<T> {
    map key | key in s.cache && !Expired(config, now, s.cache[key]) :: s.cache[key]
  }

  function Dropped<T>(s: State<T>, config: Config, now: int): Cache<T> {
    map key | key in s.cache && Expired(config, now, s.cache[key]) :: s.cache[key]
  }

  function AfterClear<T>(s: State<T>): State<T> {
    s.(cache := map[], stats := s.stats.(evictions := s.stats.evictions + |s.cache|, memory := 0))
  }

  ghost function AfterEvict<T(!new)>(s: State<T>, force_all: bool, config: Config, now: int): State<T> {
    if force_all then AfterClear(s)
    else
      var dropped := Dropped(s, config, now);
      s.(cache := Retained(s, config, now),
         stats := s.stats.(evictions := s.stats.evictions + |dropped|,
                           memory := SaturatingSub(s.stats.memory, Sizes(dropped))))
  }

  function AfterConfigure<T>(
    s: State<T>, limit_mb: nat, ttl: nat, strategy_name: string, policy_name: string, background: bool): State<T>
  {
    var strategy, policy := ParseStrategy(strategy_name), ParsePolicy(policy_name);
    if strategy.None? || policy.None? then s
    else s.(config := Config(limit_mb * MIB, ttl, strategy.value, policy.value, background))
  }

  ghost function After<T(!new)>(s: State<T>, op: Op<T>): State<T> {
    match op
    case Configure(limit_mb, ttl, strategy_name, policy_name, background) =>
      AfterConfigure(s, limit_mb, ttl, strategy_name, policy_name, background)
    case Warm(key, reader, created, accessed, elapsed_ms) =>
      if reader.Some? then AfterWarm(s, key, reader.value, created, accessed, elapsed_ms) else s
    case Get(key, now) => AfterGet(s, key, now)
    case Evict(force_all, snapshot, now) => AfterEvict(s, force_all, snapshot, now)
    case Clear => AfterClear(s)
  }

  function Initial<T>(): State<T> {
    State(map[], Stats(0, 0, 0, 0, 0, 0), Config(256 * MIB, 3600, Lazy, Lru, true))
  }

  // ---------- The resource ----------

  class IndexWarming<T(!new)> {
    var cache: Cache<T>
    var stats: Stats
    var config: Config
    ghost var history: History

    ghost function Current(): State<T>
      reads this
    {
      State(cache, stats, config)
    }

    /** The counters agree with the cache and with what the calls so far did. */
    ghost predicate Valid()
      reads this
    {
      Accounted(Current(), history)
    }

    constructor ()
      ensures Valid() && Current() == Initial()
      ensures cache == map[] && config == Config(268_435_456, 3600, Lazy, Lru, true)
    {
      cache := map[];
      stats := Stats(0, 0, 0, 0, 0, 0);
      config := Config(256 * MIB, 3600, Lazy, Lru, true);
      history := History(0, 0, 0);
      new;
      InitiallyAccounted<T>();
    }

    method Configure(limit_mb: nat, ttl: nat, strategy_name: string, policy_name: string, background: bool)
      returns (ok: bool)
      requires Valid()
      modifies this`config
      ensures Valid()
      ensures Current() == After(old(Current()), Op.Configure(limit_mb, ttl, strategy_name, policy_name, background))
      ensures ok <==> && strategy_name in ["eager", "lazy", "scheduled", "predictive"]
                      && policy_name in ["lru", "lfu", "ttl", "size"]
      ensures !ok ==> config == old(config)
      ensures ok ==> && config.cache_size_limit == limit_mb * 1_048_576 && config.ttl_seconds == ttl
                     && config.background_warming == background
                     && (policy_name, config.policy) in {("lru", Lru), ("lfu", Lfu), ("ttl", Ttl), ("size", BySize)}
                     && (strategy_name, config.strategy)
                        in {("eager", Eager), ("lazy", Lazy), ("scheduled", Scheduled), ("predictive", Predictive)}
    {
      hide Accounted;
      StepAccounted(Current(), history, Op.Configure(limit_mb, ttl, strategy_name, policy_name, background));
      var strategy, policy := ParseStrategy(strategy_name), ParsePolicy(policy_name);
      ok := strategy.Some? && policy.Some?;
      if ok {
        config := Config(limit_mb * MIB, ttl, strategy.value, policy.value, background);
      }
    }

    method WarmIndex(key: string, reader: Option<T>, created: int, accessed: int, elapsed_ms: nat)
      returns (ok: bool)
      requires Valid()
      modifies this`cache, this`stats, this`history
      ensures Valid()
      ensures history == Record(old(history), old(Current()), Warm(key, reader, created, accessed, elapsed_ms))
      ensures Current() == After(old(Current()), Warm(key, reader, created, accessed, elapsed_ms))
      ensures ok == reader.Some?
      ensures ok ==> cache == old(cache)[key := Cached(reader.value, created, 0, accessed, 1_048_576)]
      ensures ok ==> stats.memory == old(stats.memory) + 1_048_576
    {
      hide Accounted;
      StepAccounted(Current(), history, Warm(key, reader, created, accessed, elapsed_ms));
      if reader.None? {
        return false;
      }
      history := Record(history, Current(), Warm(key, reader, created, accessed, elapsed_ms));
      cache := cache[key := Cached(reader.value, created, 0, accessed, MIB)];
      stats := stats.(warmings := stats.warmings + 1, warming_ms := stats.warming_ms + elapsed_ms,
                      memory := stats.memory + MIB);
      ok := true;
    }

    method GetSearcher(key: string, now: int) returns (searcher: Option<T>)
      requires Valid()
      modifies this`cache, this`stats, this`history
      ensures Valid() && history == Record(old(history), old(Current()), Get(key, now))
      ensures Current() == After(old(Current()), Get(key, now))
      ensures searcher == if key in old(cache) then Some(old(cache)[key].searcher) else None
      ensures key in old(cache) ==> && stats.hits == old(stats.hits) + 1
                                    && cache[key].access_count == old(cache)[key].access_count + 1
                                    && cache[key].last_accessed == now
      ensures key !in old(cache) ==> cache == old(cache) && stats.misses == old(stats.misses) + 1
    {
      hide Accounted;
      StepAccounted(Current(), history, Get(key, now));
      history := Record(history, Current(), Get(key, now));
      if key in cache {
        var entry := cache[key];
        cache := cache[key := entry.(access_count := entry.access_count + 1, last_accessed := now)];
        stats := stats.(hits := stats.hits + 1);
        searcher := Some(entry.searcher);
      } else {
        stats := stats.(misses := stats.misses + 1);
        searcher := None;
      }
    }

    method ClearCache()
      requires Valid()
      modifies this`cache, this`stats, this`history
      ensures Valid() && history == Record(old(history), old(Current()), Clear)
      ensures Current() == After(old(Current()), Clear)
      ensures cache == map[] && stats.memory == 0 && stats.evictions == old(stats.evictions) + |old(cache)|
    {
      hide Accounted;
      StepAccounted(Current(), history, Clear);
      history := Record(history, Current(), Clear);
      var evicted := |cache|;
      cache := map[];
      stats := stats.(evictions := stats.evictions + evicted, memory := 0);
    }

    /** The eviction, with the configuration read before. */
    method EvictCache(force_all: bool, now: int) returns (evicted: nat)
      requires Valid()
      modifies this`cache, this`stats, this`history
      ensures Valid() && history == Record(old(history), old(Current()), Evict(force_all, config, now))
      ensures Current() == After(old(Current()), Evict(force_all, config, now))
      ensures evicted == |old(cache)| - |cache| == stats.evictions - old(stats).evictions
      ensures if force_all then cache == map[] else EvictedByPolicy(old(cache), cache, config, now)
    {
      hide Accounted, Sizes, Expired, Retained, Dropped, EvictedByPolicy;
      StepAccounted(Current(), history, Evict(force_all, config, now));
      history := Record(history, Current(), Evict(force_all, config, now));
      evicted := 0;
      if force_all {
        evicted := |cache|;
        cache := map[];
        stats := stats.(memory := 0);
      } else {
        evicted := RetainUnexpired(now);
      }
      stats := stats.(evictions := stats.evictions + evicted);
    }

    /** The retaining loop subtracts the size of each dropped entry, and never below zero. */
    method RetainUnexpired(now: int) returns (evicted: nat)
      modifies this`cache, this`stats
      ensures cache == Retained(old(Current()), config, now) && EvictedByPolicy(old(cache), cache, config, now)
      ensures var dropped := Dropped(old(Current()), config, now);
              && evicted == |dropped| == |old(cache)| - |cache|
              && stats == old(stats).(memory := SaturatingSub(old(stats).memory, Sizes(dropped)))
    {
      hide Visited, Sizes, Expired, Retained, Dropped, EvictedByPolicy;
      evicted := 0;
      ghost var s := Current();
      var pending := cache.Keys;
      NoneVisited(s, config, now);
      while pending != {}
        invariant Visited(s, config, now, pending, Current(), evicted)
        decreases |pending|
      {
        var key :| key in pending;
        VisitOne(s, config, now, pending, Current(), evicted, key);
        if Expired(config, now, cache[key]) {
          evicted := evicted + 1;
          stats := stats.(memory := SaturatingSub(stats.memory, cache[key].size_bytes));
          cache := cache - {key};
        }
        pending := pending - {key};
      }
      AllVisited(s, config, now, Current(), evicted);
      RetainedByPolicy(s, config, now);
    }
  }

  // ---------- Facts about the retaining loop ----------

  /** The entries not yet visited, with those visited and retained. */
  function Remaining<T>(s: State<T>, config: Config, now: int, pending: set<string>): Cache<T> {
    map key | key in s.cache && (key in pending || !Expired(config, now, s.cache[key])) :: s.cache[key]
  }

  /** The entries visited and dropped. */
  function DroppedBy<T>(s: State<T>, config: Config, now: int, pending: set<string>): Cache<T> {
    map key | key in s.cache && key !in pending && Expired(config, now, s.cache[key]) :: s.cache[key]
  }

  /** The state of the loop that started from s, with the keys `pending` to come. */
  ghost predicate Visited<T(!new)>(
    s: State<T>, config: Config, now: int, pending: set<string>, t: State<T>, evicted: nat)
  {
    && pending <= s.cache.Keys
    && t.cache == Remaining(s, config, now, pending)
    && t.config == s.config
    && t.stats == s.stats.(memory := SaturatingSub(s.stats.memory, Sizes(DroppedBy(s, config, now, pending))))
    && evicted == |DroppedBy(s, config, now, pending)|
  }

  lemma NoneVisited<T(!new)>(s: State<T>, config: Config, now: int)
    ensures Visited(s, config, now, s.cache.Keys, s, 0)
  {
    hide Expired;
    assert DroppedBy(s, config, now, s.cache.Keys) == map[];
    assert Remaining(s, config, now, s.cache.Keys) == s.cache;
  }

  lemma AllVisited<T(!new)>(s: State<T>, config: Config, now: int, t: State<T>, evicted: nat)
    requires Visited(s, config, now, {}, t, evicted)
    ensures t == State(Retained(s, config, now),
                       s.stats.(memory := SaturatingSub(s.stats.memory, Sizes(Dropped(s, config, now)))), s.config)
    ensures evicted == |Dropped(s, config, now)| == |s.cache| - |t.cache|
  {
    hide Expired;
    assert DroppedBy(s, config, now, {}) == Dropped(s, config, now);
    assert Remaining(s, config, now, {}) == Retained(s, config, now);
    Partition(s, config, now);
  }

  lemma VisitRetained<T(!new)>(s: State<T>, config: Config, now: int, pending: set<string>, key: string)
    requires key in pending && key in s.cache && !Expired(config, now, s.cache[key])
    ensures Remaining(s, config, now, pending - {key}) == Remaining(s, config, now, pending)
    ensures DroppedBy(s, config, now, pending - {key}) == DroppedBy(s, config, now, pending)
  {
    hide Expired;
  }

  lemma VisitDropped<T(!new)>(s: State<T>, config: Config, now: int, pending: set<string>, key: string)
    requires key in pending && key in s.cache && Expired(config, now, s.cache[key])
    ensures Remaining(s, config, now, pending - {key}) == Remaining(s, config, now, pending) - {key}
    ensures key !in DroppedBy(s, config, now, pending)
    ensures DroppedBy(s, config, now, pending - {key}) == DroppedBy(s, config, now, pending)[key := s.cache[key]]
  {
    hide Expired;
  }

  lemma VisitOne<T(!new)>(
    s: State<T>, config: Config, now: int, pending: set<string>, t: State<T>, evicted: nat, key: string)
    requires Visited(s, config, now, pending, t, evicted) && key in pending
    ensures key in t.cache
    ensures !Expired(config, now, t.cache[key]) ==> Visited(s, config, now, pending - {key}, t, evicted)
    ensures Expired(config, now, t.cache[key]) ==>
            Visited(s, config, now, pending - {key},
                    State(t.cache - {key},
                          t.stats.(memory := SaturatingSub(t.stats.memory, t.cache[key].size_bytes)), t.config),
                    evicted + 1)
  {
    hide Expired, Sizes;
    var dropped := DroppedBy(s, config, now, pending);
    assert t.cache[key] == s.cache[key];
    if Expired(config, now, s.cache[key]) {
      VisitDropped(s, config, now, pending, key);
      SizesInsert(dropped, key, s.cache[key]);
      InsertedSize(dropped, key, s.cache[key]);
    } else {
      VisitRetained(s, config, now, pending, key);
    }
  }

  lemma InsertedSize<T>(cache: Cache<T>, key: string, entry: Cached<T>)
    requires key !in cache
    ensures |cache[key := entry]| == |cache| + 1
  {
  }

  lemma Partition<T(!new)>(s: State<T>, config: Config, now: int)
    ensures |Retained(s, config, now)| + |Dropped(s, config, now)| == |s.cache|
    ensures Sizes(Retained(s, config, now)) + Sizes(Dropped(s, config, now)) == Sizes(s.cache)
  {
    hide Expired, Sizes;
    var retained, dropped := Retained(s, config, now), Dropped(s, config, now);
    PartitionKeys(s, config, now);
    hide Retained, Dropped;
    DisjointCount(retained, dropped);
    SizesDisjoint(retained, dropped);
  }

  lemma PartitionKeys<T(!new)>(s: State<T>, config: Config, now: int)
    ensures var retained, dropped := Retained(s, config, now), Dropped(s, config, now);
            s.cache == retained + dropped && retained.Keys !! dropped.Keys
  {
    hide Expired;
  }

  lemma DisjointCount<T>(a: Cache<T>, b: Cache<T>)
    requires a.Keys !! b.Keys
    ensures |a + b| == |a| + |b|
  {
    assert (a + b).Keys == a.Keys + b.Keys;
    assert |a.Keys + b.Keys| == |a.Keys| + |b.Keys|;
  }

  lemma {:induction false} SizesDisjoint<T(!new)>(a: Cache<T>, b: Cache<T>)
    requires a.Keys !! b.Keys
    ensures Sizes(a + b) == Sizes(a) + Sizes(b)
    decreases |b|
  {
    hide Sizes;
    if b == map[] {
      NoSizes<T>();
      assert a + b == a;
    } else {
      var key :| key in b;
      var rest := b - {key};
      TakeOut(a, b, key);
      SumInsert(a, rest, key, b[key]);
      SizesInsert(rest, key, b[key]);
      SizesInsert(a + rest, key, b[key]);
      SizesDisjoint(a, rest);
    }
  }

  lemma TakeOut<T(!new)>(a: Cache<T>, b: Cache<T>, key: string)
    requires a.Keys !! b.Keys && key in b
    ensures var rest := b - {key};
            b == rest[key := b[key]] && |b| == |rest| + 1 && a.Keys !! rest.Keys && key !in a + rest && key !in rest
  {
    InsertedSize(b - {key}, key, b[key]);
    assert b == (b - {key})[key := b[key]];
  }

  lemma SumInsert<T(!new)>(a: Cache<T>, b: Cache<T>, key: string, entry: Cached<T>)
    ensures a + b[key := entry] == (a + b)[key := entry]
  {
  }

  lemma NoSizes<T(!new)>()
    ensures Sizes<T>(map[]) == 0
  {
  }

  // ---------- Accounting over runs ----------

  /** What a history has overwritten: in all, and since the cache was last emptied at once; and how
      many gets it made. */
  datatype History = History(overwrites: nat, since_clear: nat, gets: nat)

  function Record<T>(h: History, s: State<T>, op: Op<T>): History {
    match op
    case Warm(key, reader, _, _, _) =>
      if reader.Some? && key in s.cache then h.(overwrites := h.overwrites + 1, since_clear := h.since_clear + 1)
      else h
    case Get(_, _) => h.(gets := h.gets + 1)
    case Evict(force_all, _, _) => if force_all then h.(since_clear := 0) else h
    case Clear => h.(since_clear := 0)
    case Configure(_, _, _, _, _) => h
  }

  ghost function Run<T(!new)>(ops: seq<Op<T>>): (State<T>, History) {
    if ops == [] then (Initial(), History(0, 0, 0))
    else
      var (s, h) := Run(ops[..|ops| - 1]);
      (After(s, ops[|ops| - 1]), Record(h, s, ops[|ops| - 1]))
  }

  ghost predicate Accounted<T(!new)>(s: State<T>, h: History) {
    && s.stats.warmings == |s.cache| + s.stats.evictions + h.overwrites
    && s.stats.memory == Sizes(s.cache) + MIB * h.since_clear
    && s.stats.hits + s.stats.misses == h.gets
    && (forall key <- s.cache :: s.cache[key].size_bytes == MIB)
  }

  lemma WarmAccounted<T(!new)>(s: State<T>, h: History, op: Op<T>)
    requires Accounted(s, h) && op.Warm?
    ensures Accounted(After(s, op), Record(h, s, op))
  {
    if op.reader.Some? {
      SizesInsert(s.cache, op.key, Cached(op.reader.value, op.created, 0, op.accessed, MIB));
    }
  }

  lemma GetAccounted<T(!new)>(s: State<T>, h: History, op: Op<T>)
    requires Accounted(s, h) && op.Get?
    ensures Accounted(After(s, op), Record(h, s, op))
  {
    if op.key in s.cache {
      var entry := s.cache[op.key];
      SizesInsert(s.cache, op.key, entry.(access_count := entry.access_count + 1, last_accessed := op.now));
    }
  }

  /** The saturating subtraction does not clip: the memory in use covers all that is dropped. */
  lemma EvictAccounted<T(!new)>(s: State<T>, h: History, op: Op<T>)
    requires Accounted(s, h) && op.Evict?
    ensures Accounted(After(s, op), Record(h, s, op))
    ensures Sizes(Dropped(s, op.snapshot, op.now)) <= s.stats.memory
  {
    hide Expired, Sizes;
    Partition(s, op.snapshot, op.now);
    NoSizes<T>();
    assert forall key <- Retained(s, op.snapshot, op.now) :: Retained(s, op.snapshot, op.now)[key] == s.cache[key];
  }

  lemma StepAccounted<T(!new)>(s: State<T>, h: History, op: Op<T>)
    requires Accounted(s, h)
    ensures Accounted(After(s, op), Record(h, s, op))
  {
    hide Accounted;
    match op
    case Warm(_, _, _, _, _) => WarmAccounted(s, h, op);
    case Get(_, _) => GetAccounted(s, h, op);
    case Evict(_, _, _) => EvictAccounted(s, h, op);
    case Clear => EmptiedAccounted(s, h, op);
    case Configure(_, _, _, _, _) => EmptiedAccounted(s, h, op);
  }

  lemma EmptiedAccounted<T(!new)>(s: State<T>, h: History, op: Op<T>)
    requires Accounted(s, h) && (op.Clear? || op.Configure?)
    ensures Accounted(After(s, op), Record(h, s, op))
  {
  }

  /** After any run: every warming is a cached entry, an eviction or an overwriting; the memory figure is
      the size of the cached entries and one MiB for each overwriting since the cache was last emptied;
      every get is a hit or a miss. */
  lemma {:induction false} RunAccounted<T(!new)>(ops: seq<Op<T>>)
    ensures var (s, h) := Run(ops); Accounted(s, h)
  {
    hide Accounted, After, Record;
    if ops == [] {
      InitiallyAccounted<T>();
    } else {
      var (s, h) := Run(ops[..|ops| - 1]);
      RunAccounted(ops[..|ops| - 1]);
      StepAccounted(s, h, ops[|ops| - 1]);
    }
  }

  lemma InitiallyAccounted<T(!new)>()
    ensures Accounted(Initial<T>(), History(0, 0, 0))
  {
  }

  lemma {:induction false} SizesOfMibs<T(!new)>(cache: Cache<T>)
    requires forall key <- cache :: cache[key].size_bytes == MIB
    ensures Sizes(cache) == MIB * |cache|
    decreases |cache|
  {
    if cache != map[] {
      var key :| key in cache;
      SizesWithout(cache, key);
      SizesOfMibs(cache - {key});
      assert (cache - {key}).Keys == cache.Keys - {key};
    }
  }

  /** The reported memory is that of the cached entries if and only if nothing was overwritten since the
      cache was last emptied. */
  lemma MemoryExactly<T(!new)>(ops: seq<Op<T>>)
    ensures var (s, h) := Run(ops);
            && s.stats.memory == MIB * (|s.cache| + h.since_clear)
            && (s.stats.memory == Sizes(s.cache) <==> h.since_clear == 0)
  {
    hide Run, Sizes;
    RunAccounted(ops);
    SizesOfMibs(Run(ops).0.cache);
  }

  /** Warming a key twice reports two MiB for one MiB of entries. */
  lemma OverwritingOverCounts<T(!new)>(key: string, first: T, second: T)
    ensures var run := [Warm(key, Some(first), 0, 0, 0), Warm(key, Some(second), 0, 0, 0)];
            var s := Run(run).0;
            s.stats.memory == 2_097_152 && Sizes(s.cache) == 1_048_576 && Run(run).1.since_clear == 1
  {
    var one, two := Warm(key, Some(first), 0, 0, 0), Warm(key, Some(second), 0, 0, 0);
    assert [one, two][..1] == [one] && [one][..0] == [];
    assert Run<T>([]) == (Initial(), History(0, 0, 0));
    var (s, h) := Run([one]);
    assert s == After(Initial(), one) && h == History(0, 0, 0);
    var (t, g) := Run([one, two]);
    assert t == After(s, two) && g == History(1, 1, 0);
    assert t.cache.Keys == {key};
    MemoryExactly([one, two]);
    SizesOfMibs(t.cache);
  }

  // ---------- The entries, from the history ----------

  predicate Warms<T>(op: Op<T>, key: string) {
    op.Warm? && op.key == key && op.reader.Some?
  }

  predicate Gets<T>(op: Op<T>, key: string) {
    op.Get? && op.key == key
  }

  /** When the key warmed by the w-th call was last accessed. */
  function LastUse<T>(ops: seq<Op<T>>, w: nat, key: string): int
    requires w < |ops| && Warms(ops[w], key)
  {
    var last := |ops| - 1;
    if w == last then ops[w].accessed
    else if Gets(ops[last], key) then ops[last].now
    else LastUse(ops[..last], w, key)
  }

  /** How often the key was fetched since the w-th call. */
  function Uses<T>(ops: seq<Op<T>>, w: nat, key: string): nat
    requires w < |ops|
  {
    var last := |ops| - 1;
    if w == last then 0
    else Uses(ops[..last], w, key) + if Gets(ops[last], key) then 1 else 0
  }

  /** The call leaves an entry of the key with these times where it is: it neither replaces it nor empties
      the cache, and an eviction looks at the last access under lru and at the creation under ttl. */
  predicate LeavesEntry<T>(op: Op<T>, key: string, created: int, used: int) {
    match op
    case Configure(_, _, _, _, _) => true
    case Warm(_, _, _, _, _) => !Warms(op, key)
    case Get(_, _) => true
    case Evict(force_all, config, now) =>
      && !force_all
      && (config.policy.Lru? ==> now - used <= config.ttl_seconds * 1_000_000_000)
      && (config.policy.Ttl? ==> now - created <= config.ttl_seconds * 1_000_000_000)
    case Clear => false
  }

  /** The w-th call warmed the key and every later one left the entry. */
  ghost predicate Lives<T(!new)>(ops: seq<Op<T>>, w: nat, key: string)
    requires w < |ops|
  {
    && Warms(ops[w], key)
    && forall i | w < i < |ops| :: LeavesEntry(ops[i], key, ops[w].created, LastUse(ops[..i], w, key))
  }

  lemma LivesAfter<T(!new)>(before: seq<Op<T>>, op: Op<T>, w: nat, key: string)
    requires w < |before|
    ensures Lives(before + [op], w, key) <==>
            Lives(before, w, key) && LeavesEntry(op, key, before[w].created, LastUse(before, w, key))
  {
    hide LeavesEntry, Warms;
    var ops, n := before + [op], |before|;
    assert ops[..n] == before && ops[w] == before[w];
    forall i | w < i < n ensures ops[i] == before[i] && ops[..i] == before[..i] {
    }
  }

  /** The entry of a key that the w-th call warmed and nothing removed. */
  function EntryOf<T>(ops: seq<Op<T>>, w: nat, key: string): Cached<T>
    requires w < |ops| && Warms(ops[w], key)
  {
    Cached(ops[w].reader.value, ops[w].created, Uses(ops, w, key), LastUse(ops, w, key), 1_048_576)
  }

  ghost predicate Explained<T(!new)>(ops: seq<Op<T>>, key: string, cache: Cache<T>) {
    && (key in cache <==> exists w: nat :: w < |ops| && Lives(ops, w, key))
    && (forall w: nat | w < |ops| && Lives(ops, w, key) :: key in cache && cache[key] == EntryOf(ops, w, key))
  }

  /** What one call does to one key. */
  lemma EntryAfter<T(!new)>(s: State<T>, op: Op<T>, key: string)
    ensures var cache := After(s, op).cache;
            && (Warms(op, key) ==>
                  key in cache && cache[key] == Cached(op.reader.value, op.created, 0, op.accessed, MIB))
            && (!Warms(op, key) ==>
                  (key in cache <==>
                   key in s.cache && LeavesEntry(op, key, s.cache[key].created_at, s.cache[key].last_accessed)))
            && (!Warms(op, key) && key in cache ==>
                  var entry := s.cache[key];
                  cache[key] == if Gets(op, key)
                                then entry.(access_count := entry.access_count + 1, last_accessed := op.now)
                                else entry)
  {
  }

  /** After any run: a key is cached if and only if some call warmed it and every later call left it where
      it was, and its entry has the times, the number of fetches and the size that those calls gave it. */
  lemma {:induction false} CachedExactly<T(!new)>(ops: seq<Op<T>>, key: string)
    ensures Explained(ops, key, Run(ops).0.cache)
  {
    if ops != [] {
      var n := |ops| - 1;
      CachedExactly(ops[..n], key);
      assert ops == ops[..n] + [ops[n]];
      ExplainedAfter(ops[..n], ops[n], key, Run(ops[..n]).0);
    }
  }

  lemma ExplainedAfter<T(!new)>(before: seq<Op<T>>, op: Op<T>, key: string, s: State<T>)
    requires Explained(before, key, s.cache)
    ensures Explained(before + [op], key, After(s, op).cache)
  {
    hide After, Lives, LeavesEntry, Warms, Gets, LastUse, Uses;
    var ops, n, cache := before + [op], |before|, After(s, op).cache;
    EntryAfter(s, op, key);
    assert ops[..n] == before && ops[n] == op;
    LivesLast(ops, key);
    forall w: nat | w < n && Lives(before, w, key)
      ensures Lives(ops, w, key) <==> LeavesEntry(op, key, s.cache[key].created_at, s.cache[key].last_accessed)
      ensures Lives(ops, w, key) ==> !Warms(op, key) && Warms(ops[w], key) && cache[key] == EntryOf(ops, w, key)
    {
      LivesAfter(before, op, w, key);
      EntryNext(before, op, w, key);
    }
    forall w: nat | w < n && Lives(ops, w, key) ensures Lives(before, w, key) {
      LivesAfter(before, op, w, key);
    }
    if key in s.cache {
      var w: nat :| w < n && Lives(before, w, key);
      assert Lives(ops, w, key) <==> LeavesEntry(op, key, s.cache[key].created_at, s.cache[key].last_accessed);
    }
  }

  lemma LivesLast<T(!new)>(ops: seq<Op<T>>, key: string)
    requires ops != []
    ensures var n := |ops| - 1;
            && (Lives(ops, n, key) <==> Warms(ops[n], key))
            && (Warms(ops[n], key) ==>
                  EntryOf(ops, n, key) == Cached(ops[n].reader.value, ops[n].created, 0, ops[n].accessed, MIB))
  {
  }

  lemma EntryNext<T(!new)>(before: seq<Op<T>>, op: Op<T>, w: nat, key: string)
    requires w < |before| && Lives(before, w, key)
    ensures EntryOf(before, w, key).created_at == before[w].created
    ensures EntryOf(before, w, key).last_accessed == LastUse(before, w, key)
    ensures LeavesEntry(op, key, before[w].created, LastUse(before, w, key)) ==> !Warms(op, key)
    ensures (before + [op])[w] == before[w] && Warms(before[w], key)
    ensures var entry := EntryOf(before, w, key);
            EntryOf(before + [op], w, key)
              == if Gets(op, key) then entry.(access_count := entry.access_count + 1, last_accessed := op.now)
                 else entry
  {
    assert (before + [op])[..|before|] == before;
  }

  // ---------- Which entries an eviction removes ----------

  /** An eviction that is not forced: under lru an entry stays if and only if its last access is at most
      the time to live ago, under ttl if and only if its creation is; under the other policies all stay.
      The entries that stay are unchanged. */
  ghost predicate EvictedByPolicy<T>(before: Cache<T>, after: Cache<T>, config: Config, now: int) {
    && (forall key <- after :: key in before && after[key] == before[key])
    && (forall key <- before ::
          match config.policy
          case Lru => key in after <==> now - before[key].last_accessed <= config.ttl_seconds * 1_000_000_000
          case Ttl => key in after <==> now - before[key].created_at <= config.ttl_seconds * 1_000_000_000
          case Lfu => key in after
          case BySize => key in after)
  }

  lemma RetainedByPolicy<T>(s: State<T>, config: Config, now: int)
    ensures EvictedByPolicy(s.cache, Retained(s, config, now), config, now)
  {
  }

  /** The call reads no time before t for the key, and any eviction it makes is not forced, at most the
      time to live after t and not under ttl. */
  predicate SparesUntil<T>(op: Op<T>, key: string, t: int) {
    match op
    case Configure(_, _, _, _, _) => true
    case Warm(_, _, _, accessed, _) => Warms(op, key) ==> accessed >= t
    case Get(_, now) => Gets(op, key) ==> now >= t
    case Evict(force_all, config, now) =>
      && !force_all && !config.policy.Ttl?
      && (config.policy.Lru? ==> now <= t + config.ttl_seconds * 1_000_000_000)
    case Clear => false
  }

  /** A searcher found at time t stays cached through all lru evictions up to the time to live after t,
      however long ago it was warmed. */
  lemma {:induction false} HitStays<T(!new)>(before: seq<Op<T>>, key: string, t: int, later: seq<Op<T>>)
    requires key in Run(before).0.cache
    requires forall op <- later :: SparesUntil(op, key, t)
    ensures var cache := Run(before + [Get(key, t)] + later).0.cache;
            key in cache && cache[key].last_accessed >= t
    decreases |later|
  {
    hide After, SparesUntil;
    var found := before + [Get(key, t)];
    if later == [] {
      assert found + later == found && found[..|found| - 1] == before;
      EntryAfter(Run(before).0, Get(key, t), key);
      assert Gets(Op<T>.Get(key, t), key);
    } else {
      var n := |later| - 1;
      var op := later[n];
      var run := found + later;
      assert run[..|run| - 1] == found + later[..n] && run[|run| - 1] == op;
      HitStays(before, key, t, later[..n]);
      EntryAfter(Run(found + later[..n]).0, op, key);
      Spared(op, key, t, Run(found + later[..n]).0.cache[key]);
    }
  }

  lemma Spared<T(!new)>(op: Op<T>, key: string, t: int, entry: Cached<T>)
    requires SparesUntil(op, key, t) && entry.last_accessed >= t
    ensures Warms(op, key) ==> op.accessed >= t
    ensures Gets(op, key) ==> op.now >= t
    ensures !Warms(op, key) ==> LeavesEntry(op, key, entry.created_at, entry.last_accessed)
  {
  }

  // ---------- The counters, from the history ----------

  /** The gets that found their key. */
  ghost function Hits<T(!new)>(ops: seq<Op<T>>): nat {
    if ops == [] then 0
    else
      var n := |ops| - 1;
      Hits(ops[..n]) + if ops[n].Get? && ops[n].key in Run(ops[..n]).0.cache then 1 else 0
  }

  /** The warmings that could open their index, and the milliseconds they took. */
  function Warmings<T>(ops: seq<Op<T>>): (nat, nat) {
    if ops == [] then (0, 0)
    else
      var (count, ms) := Warmings(ops[..|ops| - 1]);
      var last := ops[|ops| - 1];
      if last.Warm? && last.reader.Some? then (count + 1, ms + last.elapsed_ms) else (count, ms)
  }

  /** After any run the counters count the gets that hit, those that missed, and the warmings. */
  lemma {:induction false} CountersExactly<T(!new)>(ops: seq<Op<T>>)
    ensures var (s, h) := Run(ops);
            && s.stats.hits == Hits(ops) && s.stats.misses == h.gets - Hits(ops)
            && (s.stats.warmings, s.stats.warming_ms) == Warmings(ops)
  {
    hide After, Record;
    if ops != [] {
      var n := |ops| - 1;
      CountersExactly(ops[..n]);
      CountersAfter(Run(ops[..n]).0, Run(ops[..n]).1, ops[n]);
    }
  }

  lemma CountersAfter<T(!new)>(s: State<T>, h: History, op: Op<T>)
    ensures var t, found := After(s, op).stats, if op.Get? && op.key in s.cache then 1 else 0;
            var warmed := op.Warm? && op.reader.Some?;
            && t.hits == s.stats.hits + found
            && t.misses - s.stats.misses == Record(h, s, op).gets - h.gets - found
            && t.warmings == s.stats.warmings + (if warmed then 1 else 0)
            && t.warming_ms == s.stats.warming_ms + (if warmed then op.elapsed_ms else 0)
  {
    hide Expired, Retained, Dropped, Sizes;
  }
}
