/** The Turso driver as it is written: a map of weak references and the strong counts behind them,
    changed in place.  A call that no other thread interrupts is proved to be a run of the steps of
    SharedDatabase, where a weak reference upgrades exactly when the object's count is positive. */
module DatabaseRegistry {
  import opened Wrappers
  import opened SD = SharedDatabase

  /** The state after some steps in order. */
  ghost function AfterAll(canon: Path -> Path, s: State, actions: seq<Action>): Option<State>
    decreases |actions|
  {
    if actions == [] then Some(s)
    else
      var next := Step(canon, s, actions[0]);
      if next.None? then None else AfterAll(canon, next.value, actions[1..])
  }

  /** How many connections hold the object. */
  function Holders(conns: seq<Conn>, o: Obj): nat {
    if conns == [] then 0
    else (if conns[|conns| - 1].database == Some(o) then 1 else 0) + Holders(conns[..|conns| - 1], o)
  }

  lemma {:induction false} HoldersExist(conns: seq<Conn>, o: Obj)
    ensures Holders(conns, o) > 0 <==> exists i :: 0 <= i < |conns| && conns[i].database == Some(o)
  {
    if conns != [] {
      HoldersExist(conns[..|conns| - 1], o);
    }
  }

  lemma {:induction false} HoldersUpdate(conns: seq<Conn>, c: nat, conn: Conn, o: Obj)
    requires c < |conns|
    ensures Holders(conns[c := conn], o) + (if conns[c].database == Some(o) then 1 else 0)
         == Holders(conns, o) + (if conn.database == Some(o) then 1 else 0)
  {
    var n := |conns| - 1;
    if c < n {
      assert conns[c := conn][..n] == conns[..n][c := conn];
      HoldersUpdate(conns[..n], c, conn, o);
    } else {
      assert conns[c := conn][..n] == conns[..n];
    }
  }

  lemma HoldersAppend(conns: seq<Conn>, conn: Conn, o: Obj)
    ensures Holders(conns + [conn], o) == Holders(conns, o) + (if conn.database == Some(o) then 1 else 0)
  {
    assert (conns + [conn])[..|conns|] == conns;
  }

  /** The strong counts: one for each connection that holds the object, and one for `own`, the
      reference an open under way has. */
  ghost predicate Counted(strong: seq<nat>, conns: seq<Conn>, own: Option<Obj>) {
    forall o | 0 <= o < |strong| :: strong[o] == Holders(conns, o) + (if own == Some(o) then 1 else 0)
  }

  /** References are to objects that were built. */
  predicate InRange(n: nat, registry: map<Path, Obj>, conns: seq<Conn>) {
    && (forall k <- registry :: registry[k] < n)
    && (forall i | 0 <= i < |conns| :: conns[i].database.Some? ==> conns[i].database.value < n)
  }

  /** A weak reference upgrades exactly when the strong count is positive. */
  lemma UpgradeExactly(s: State, strong: seq<nat>, t: Tid, own: Option<Obj>, o: Obj)
    requires Counted(strong, s.conns, own) && o < |strong|
    requires forall u: Tid, p: Obj :: Refers(PcOf(s, u), p) <==> u == t && own == Some(p)
    ensures Live(s, o) <==> strong[o] > 0
  {
    HoldersExist(s.conns, o);
    if own == Some(o) {
      assert Refers(PcOf(s, t), o);
    }
  }

  /** The connection made of an open takes over its reference. */
  lemma HandOver(strong: seq<nat>, conns: seq<Conn>, o: Obj)
    requires Counted(strong, conns, Some(o))
    ensures Counted(strong, conns + [Conn(true, Some(o))], None)
  {
    forall p | 0 <= p < |strong| ensures strong[p] == Holders(conns + [Conn(true, Some(o))], p) {
      HoldersAppend(conns, Conn(true, Some(o)), p);
    }
  }

  /** A new object is held by its builder only. */
  lemma BuiltCounted(strong: seq<nat>, registry: map<Path, Obj>, conns: seq<Conn>)
    requires Counted(strong, conns, None) && InRange(|strong|, registry, conns)
    ensures Counted(strong + [1], conns, Some(|strong|)) && InRange(|strong| + 1, registry, conns)
  {
    HoldersExist(conns, |strong|);
  }

  lemma PositiveHeld(strong: seq<nat>, conns: seq<Conn>, o: Obj)
    requires Counted(strong, conns, None) && o < |strong|
    ensures strong[o] > 0 <==> Held(conns, o)
  {
    HoldersExist(conns, o);
  }

  lemma SameHit(canon: Path -> Path, a: State, b: State, path: Path)
    requires a.files == b.files && a.registry == b.registry && a.conns == b.conns
    ensures Hit(canon, a, path) <==> Hit(canon, b, path)
  {
  }

  lemma NoHitMissed(canon: Path -> Path, s: State, strong: seq<nat>, path: Path)
    requires !Hit(canon, s, path) && Counted(strong, s.conns, None)
    ensures Missed(s.files, strong, s.registry, canon(path))
  {
    if canon(path) in s.registry && s.registry[canon(path)] < |strong| {
      PositiveHeld(strong, s.conns, s.registry[canon(path)]);
    }
  }

  lemma LookedUp(strong: seq<nat>, conns: seq<Conn>, o: Obj)
    requires Counted(strong, conns, None) && o < |strong|
    ensures Counted(strong[o := strong[o] + 1], conns, Some(o))
  {
  }

  /** A failed connect gives the reference of its open back. */
  lemma Released(strong: seq<nat>, conns: seq<Conn>, o: Obj)
    requires Counted(strong, conns, Some(o)) && o < |strong|
    ensures strong[o] > 0 && Counted(strong[o := strong[o] - 1], conns, None)
  {
  }

  lemma KeptAppend(strong: seq<nat>, registry: map<Path, Obj>)
    requires forall k <- registry :: registry[k] < |strong|
    ensures Kept(strong + [1], registry) == Kept(strong, registry)
  {
  }

  /** The counts without one reference. */
  function Without(strong: seq<nat>, database: Option<Obj>): (fewer: seq<nat>)
    ensures |fewer| == |strong|
    ensures forall o | 0 <= o < |strong| :: fewer[o] <= strong[o]
  {
    if database.Some? && database.value < |strong| && strong[database.value] > 0
    then strong[database.value := strong[database.value] - 1]
    else strong
  }

  /** Clearing a connection's reference. */
  lemma LetGo(strong: seq<nat>, registry: map<Path, Obj>, conns: seq<Conn>, c: nat)
    requires Counted(strong, conns, None) && InRange(|strong|, registry, conns) && c < |conns|
    ensures conns[c].database.Some? ==> strong[conns[c].database.value] > 0
    ensures Counted(Without(strong, conns[c].database), conns[c := Conn(false, None)], None)
    ensures InRange(|strong|, registry, conns[c := Conn(false, None)])
  {
    forall o | 0 <= o < |strong|
      ensures Holders(conns[c := Conn(false, None)], o) + (if conns[c].database == Some(o) then 1 else 0)
           == Holders(conns, o)
    {
      HoldersUpdate(conns, c, Conn(false, None), o);
    }
  }

  lemma Overwritten(conns: seq<Conn>, c: nat, first: Conn, last: Conn)
    requires c < |conns|
    ensures conns[c := first][c := last] == conns[c := last]
  {
  }

  lemma OnlyBuilder(s: State, t: Tid, own: Obj)
    requires s.threads.Keys == {t} && s.threads[t].Built? && s.threads[t].obj == own
    ensures forall u: Tid, p: Obj :: Refers(PcOf(s, u), p) <==> u == t && own == p
  {
  }

  // ---------- Coherence ----------

  /** The object belongs to the file that exists now under its path. */
  predicate OfCurrent(files: map<Path, Incarnation>, b: Bound) {
    b.file in files && files[b.file] == b.incarnation
  }

  ghost predicate EntriesCurrent(files: map<Path, Incarnation>, objects: seq<Bound>,
                                 strong: seq<nat>, registry: map<Path, Obj>) {
    |strong| == |objects|
    && forall k <- registry ::
         registry[k] < |objects| && objects[registry[k]].file == k
         && (k in files && strong[registry[k]] > 0 ==> files[k] == objects[registry[k]].incarnation)
  }

  ghost predicate AllRegistered(files: map<Path, Incarnation>, objects: seq<Bound>,
                                strong: seq<nat>, registry: map<Path, Obj>) {
    |strong| == |objects|
    && forall o | 0 <= o < |objects| && strong[o] > 0 && OfCurrent(files, objects[o]) ::
         objects[o].file in registry && registry[objects[o].file] == o
  }

  ghost predicate OnePerFile(objects: seq<Bound>, strong: seq<nat>) {
    |strong| == |objects|
    && forall o, p | 0 <= o < |objects| && 0 <= p < |objects| && strong[o] > 0 && strong[p] > 0
         && objects[o].incarnation == objects[p].incarnation :: o == p
  }

  /** What uninterrupted calls keep, whatever aliases a file has: entries of existing files are current,
      every object in use of an existing file is registered, and no two in use belong to one file. */
  ghost predicate Coherent(files: map<Path, Incarnation>, next: Incarnation, objects: seq<Bound>,
                           strong: seq<nat>, registry: map<Path, Obj>) {
    && FilesOk(files, next, objects)
    && EntriesCurrent(files, objects, strong, registry)
    && AllRegistered(files, objects, strong, registry)
    && OnePerFile(objects, strong)
  }

  /** Dropping references and deleting files keeps coherence. */
  lemma FewerKeepsCoherent(files: map<Path, Incarnation>, next: Incarnation, objects: seq<Bound>,
                           strong: seq<nat>, registry: map<Path, Obj>, fewer: seq<nat>)
    requires Coherent(files, next, objects, strong, registry) && |fewer| == |strong|
    requires forall o | 0 <= o < |strong| :: fewer[o] > 0 ==> strong[o] > 0
    ensures Coherent(files, next, objects, fewer, registry)
  {
    hide FilesOk;
  }

  lemma DeleteKeepsCoherent(files: map<Path, Incarnation>, next: Incarnation, objects: seq<Bound>,
                            strong: seq<nat>, registry: map<Path, Obj>, file: Path)
    requires Coherent(files, next, objects, strong, registry)
    ensures Coherent(files - {file}, next, objects, strong, registry)
  {
    FilesAfterDelete(files, next, objects, file);
    hide FilesOk;
  }

  /** Nothing in use belongs to a file that the registry misses. */
  ghost predicate Missed(files: map<Path, Incarnation>, strong: seq<nat>, registry: map<Path, Obj>, file: Path) {
    file in files && file in registry ==> registry[file] >= |strong| || strong[registry[file]] == 0
  }

  lemma NothingInUse(files: map<Path, Incarnation>, next: Incarnation, objects: seq<Bound>,
                     strong: seq<nat>, registry: map<Path, Obj>, file: Path, o: Obj)
    requires Coherent(files, next, objects, strong, registry) && Missed(files, strong, registry, file)
    requires o < |objects| && strong[o] > 0
    ensures objects[o].incarnation != (if file in files then files[file] else next)
  {
    assert ObjectOk(files, next, objects[o]);
    if file in files && objects[o].incarnation == files[file] {
      assert objects[o].file == file && OfCurrent(files, objects[o]);
    }
  }

  /** The registry after the retaining loop and the insertion. */
  ghost function Kept(strong: seq<nat>, registry: map<Path, Obj>): map<Path, Obj>
    requires forall k <- registry :: registry[k] < |strong|
  {
    map k | k in registry && strong[registry[k]] > 0 :: registry[k]
  }

  lemma BuildKeepsFiles(files: map<Path, Incarnation>, next: Incarnation, objects: seq<Bound>, file: Path)
    requires FilesOk(files, next, objects)
    ensures var there := file in files;
            var files' := if there then files else files[file := next];
            FilesOk(files', if there then next else next + 1, objects + [Bound(file, files'[file])])
  {
    if file !in files {
      FilesAfterCreate(files, next, objects, file);
      FilesAfterObject(files[file := next], next + 1, objects, file);
    } else {
      FilesAfterObject(files, next, objects, file);
    }
  }

  lemma BuildKeepsEntries(files: map<Path, Incarnation>, objects: seq<Bound>, strong: seq<nat>,
                          registry: map<Path, Obj>, b: Bound, files': map<Path, Incarnation>)
    requires EntriesCurrent(files, objects, strong, registry)
    requires files' == files[b.file := b.incarnation]
    ensures forall k <- registry :: registry[k] < |strong|
    ensures EntriesCurrent(files', objects + [b], strong + [1], Kept(strong, registry)[b.file := |objects|])
  {
  }

  lemma BuildKeepsRegistered(files: map<Path, Incarnation>, objects: seq<Bound>, strong: seq<nat>,
                             registry: map<Path, Obj>, b: Bound, files': map<Path, Incarnation>)
    requires AllRegistered(files, objects, strong, registry)
    requires files' == files[b.file := b.incarnation] && forall k <- registry :: registry[k] < |strong|
    requires forall o | 0 <= o < |objects| && strong[o] > 0 :: objects[o].incarnation != b.incarnation
    ensures AllRegistered(files', objects + [b], strong + [1], Kept(strong, registry)[b.file := |objects|])
  {
    var objects', strong', registry' := objects + [b], strong + [1], Kept(strong, registry)[b.file := |objects|];
    forall o | 0 <= o < |objects'| && strong'[o] > 0 && OfCurrent(files', objects'[o])
      ensures objects'[o].file in registry' && registry'[objects'[o].file] == o
    {
      if o < |objects| {
        assert objects'[o] == objects[o] && strong[o] > 0;
        assert OfCurrent(files, objects[o]);
      }
    }
  }

  lemma BuildKeepsOne(objects: seq<Bound>, strong: seq<nat>, b: Bound)
    requires OnePerFile(objects, strong)
    requires forall o | 0 <= o < |objects| && strong[o] > 0 :: objects[o].incarnation != b.incarnation
    ensures OnePerFile(objects + [b], strong + [1])
  {
  }

  /** Building an object for a missed file, registering it and forgetting the unused ones. */
  lemma BuildKeepsCoherent(files: map<Path, Incarnation>, next: Incarnation, objects: seq<Bound>,
                           strong: seq<nat>, registry: map<Path, Obj>, file: Path)
    requires Coherent(files, next, objects, strong, registry) && Missed(files, strong, registry, file)
    ensures forall k <- registry :: registry[k] < |strong|
    ensures var there := file in files;
            var files' := if there then files else files[file := next];
            Coherent(files', if there then next else next + 1, objects + [Bound(file, files'[file])],
                     strong + [1], Kept(strong, registry)[file := |objects|])
  {
    BuildKeepsFiles(files, next, objects, file);
    var b := Bound(file, if file in files then files[file] else next);
    var files' := if file in files then files else files[file := next];
    forall o | 0 <= o < |objects| && strong[o] > 0 ensures objects[o].incarnation != b.incarnation {
      NothingInUse(files, next, objects, strong, registry, file, o);
    }
    assert files' == files[file := b.incarnation];
    hide FilesOk, EntriesCurrent, AllRegistered, OnePerFile, Missed;
    BuildKeepsEntries(files, objects, strong, registry, b, files');
    BuildKeepsRegistered(files, objects, strong, registry, b, files');
    BuildKeepsOne(objects, strong, b);
  }

  // ---------- The driver ----------

  class Driver {
    const canon: Path -> Path
    var files: map<Path, Incarnation>
    var next: Incarnation
    var objects: seq<Bound>
    var strong: seq<nat>
    var registry: map<Path, Obj>
    var conns: seq<Conn>

    constructor (canon: Path -> Path)
      ensures this.canon == canon && Valid(None) && Shares() && Now(map[]) == START
    {
      this.canon := canon;
      files, next, objects, strong, registry, conns := map[], 0, [], [], map[], [];
    }

    ghost predicate Valid(own: Option<Obj>)
      reads this
    {
      && |strong| == |objects|
      && Counted(strong, conns, own)
      && InRange(|objects|, registry, conns)
      && (own.Some? ==> own.value < |objects|)
    }

    /** What uninterrupted calls keep. */
    ghost predicate Shares()
      reads this
    {
      && Coherent(files, next, objects, strong, registry)
      && forall i | 0 <= i < |conns| :: conns[i].open ==> conns[i].database.Some?
    }

    /** The protocol state, with the threads given. */
    ghost function Now(threads: map<Tid, Pc>): State
      reads this
    {
      State(files, next, objects, registry, None, threads, conns)
    }

    /** `shared_database`: the object of the path, with a reference to it.  `build_ok` tells whether a
        new object can be built. */
    method SharedDatabase(path: Path, build_ok: bool, ghost t: Tid)
      returns (database: Option<Obj>, ghost floor: Incarnation)
      requires Valid(None) && Shares()
      modifies this
      ensures Valid(database) && Shares() && conns == old(conns)
      ensures database.Some? <==> build_ok || Hit(canon, old(Now(map[])), path)
      ensures AfterAll(canon, old(Now(map[t := Opening(path)])),
                       Serve(t, Hit(canon, old(Now(map[])), path), build_ok))
           == Some(Now(map[t := if database.Some? then HasRef(database.value, floor) else Idle]))
    {
      hide AfterAll, Live, Step, Serve, Hit, Coherent, Holders, Counted, FilesOk;
      ghost var s := Now(map[t := Opening(path)]);
      ghost var hit := Hit(canon, Now(map[]), path);
      assert Hit(canon, s, path) == hit by { SameHit(canon, Now(map[]), s, path); }
      floor := if canon(path) in files then files[canon(path)] else next;
      database := Upgrade(path);
      if database.Some? {
        HitSteps(canon, s, path, t, build_ok);
      } else if build_ok {
        database := BuildNew(path, t);
      } else {
        FailedSteps(canon, s, path, t);
      }
    }

    /** Looks the path up and takes a reference to a live object. */
    method Upgrade(path: Path) returns (database: Option<Obj>)
      requires Valid(None) && Shares()
      modifies this`strong
      ensures Valid(database) && Shares()
      ensures database.Some? <==> Hit(canon, Now(map[]), path)
      ensures database.Some? ==>
              canon(path) in files && canon(path) in registry && database.value == registry[canon(path)]
    {
      hide Coherent, Holders, Counted, FilesOk;
      var file := canon(path);
      database := None;
      if file in files && file in registry {
        PositiveHeld(strong, conns, registry[file]);
        if strong[registry[file]] > 0 {
          var o := registry[file];
          FewerKeepsCoherent(files, next, objects, strong, registry, strong[o := strong[o] + 1]);
          LookedUp(strong, conns, o);
          database := Some(o);
          strong := strong[o := strong[o] + 1];
        }
      }
    }

    /** Builds an object for the path, which may create the file, and registers it. */
    method BuildNew(path: Path, ghost t: Tid) returns (database: Option<Obj>)
      requires Valid(None) && Shares() && !Hit(canon, Now(map[]), path)
      modifies this
      ensures database.Some? && Valid(database) && Shares() && conns == old(conns)
      ensures var floor := if canon(path) in old(files) then old(files)[canon(path)] else old(next);
              AfterAll(canon, old(Now(map[t := Opening(path)])), Serve(t, false, true))
                == Some(Now(map[t := HasRef(database.value, floor)]))
    {
      hide AfterAll, Live, Step, Serve, Coherent, Holders, Counted, FilesOk, Hit, Kept, Retained;
      var file := canon(path);
      ghost var s := Now(map[t := Opening(path)]);
      SameHit(canon, Now(map[]), s, path);
      NoHitMissed(canon, s, strong, path);
      BuildKeepsCoherent(files, next, objects, strong, registry, file);
      BuiltCounted(strong, registry, conns);
      MissSteps(canon, s, path, t);
      KeptAppend(strong, registry);
      if file !in files {
        files := files[file := next];
        next := next + 1;
      }
      var o := |objects|;
      objects := objects + [Bound(file, files[file])];
      strong := strong + [1];
      Retain(Building(canon, s, t, path), t, o);
      registry := registry[file := o];
      database := Some(o);
    }

    /** `retain`: forget the objects without a strong reference. */
    method Retain(ghost s: State, ghost t: Tid, own: Obj)
      requires Valid(Some(own)) && s.conns == conns && s.registry == registry
      requires s.threads.Keys == {t} && s.threads[t].Built? && s.threads[t].obj == own
      modifies this`registry
      ensures registry == Retained(s) == Kept(strong, old(registry))
      ensures Valid(Some(own))
    {
      hide Live, Holders;
      var all := registry;
      var pending := all.Keys;
      while pending != {}
        invariant pending <= all.Keys
        invariant registry == map k | k in all && (k in pending || strong[all[k]] > 0) :: all[k]
        decreases |pending|
      {
        var k :| k in pending;
        if strong[registry[k]] == 0 {
          registry := registry - {k};
        }
        pending := pending - {k};
      }
      OnlyBuilder(s, t, own);
      forall k | k in all ensures Live(s, all[k]) <==> strong[all[k]] > 0 {
        UpgradeExactly(s, strong, t, Some(own), all[k]);
      }
    }

    method Open(path: Path, create: bool, build_ok: bool, connect_ok: bool, ghost t: Tid) returns (conn: Option<nat>)
      requires Valid(None) && Shares()
      modifies this
      ensures Valid(None) && Shares()
      ensures conn == if && connect_ok && (create || canon(path) in old(files))
                         && (build_ok || Hit(canon, old(Now(map[])), path))
                      then Some(|old(conns)|) else None
      ensures AfterAll(canon, old(Now(map[t := Idle])),
                       OpenRun(canon, old(Now(map[])), t, path, create, build_ok, connect_ok))
           == Some(Now(map[t := Idle]))
    {
      hide AfterAll, Live, Step, Hit, Serve, Holders, Counted, Coherent;
      conn := None;
      ghost var s := Now(map[t := Idle]);
      ghost var hit := Hit(canon, Now(map[]), path);
      if !create && canon(path) !in files {
        RefusedSteps(canon, s, t, path);
        return;
      }
      var database, floor := SharedDatabase(path, build_ok, t);
      ghost var served := Now(map[t := if database.Some? then HasRef(database.value, floor) else Idle]);
      if database.None? {
        Ended(canon, served);
        OpenSteps(canon, s, t, path, create, Serve(t, hit, build_ok), served, [], served);
        return;
      }
      var o := database.value;
      ConnectSteps(canon, served, t, o, floor, connect_ok);
      if connect_ok {
        HandOver(strong, conns, o);
        conn := Some(|conns|);
        conns := conns + [Conn(true, database)];
      } else {
        Released(strong, conns, o);
        FewerKeepsCoherent(files, next, objects, strong, registry, strong[o := strong[o] - 1]);
        strong := strong[o := strong[o] - 1];
      }
      OpenSteps(canon, s, t, path, create, Serve(t, hit, build_ok), served,
                [Connect(t, connect_ok)], Now(map[t := Idle]));
    }

    /** `close`: the connection first, then the reference to the database. */
    method Close(c: nat, ghost t: Tid)
      requires Valid(None) && Shares() && c < |conns|
      modifies this`conns, this`strong
      ensures Valid(None) && Shares()
      ensures conns == old(conns)[c := Conn(false, None)]
      ensures AfterAll(canon, old(Now(map[t := Idle])), [CloseConnection(c), CloseDatabase(c)])
           == Some(Now(map[t := Idle]))
    {
      ghost var s := Now(map[t := Idle]);
      var database := conns[c].database;
      hide AfterAll, Live, Step, Holders, Counted, Coherent, InRange, Without;
      CloseSteps(canon, s, c);
      LetGo(strong, registry, conns, c);
      FewerKeepsCoherent(files, next, objects, strong, registry, Without(strong, database));
      Overwritten(conns, c, Conn(false, database), Conn(false, None));
      conns := conns[c := Conn(false, database)];
      conns := conns[c := Conn(false, None)];
      strong := Without(strong, database);
    }

    /** A file is deleted, by anyone. */
    method DeleteFile(file: Path, ghost t: Tid)
      requires Valid(None) && Shares() && file in files
      modifies this`files
      ensures Valid(None) && Shares()
      ensures Step(canon, old(Now(map[t := Idle])), Delete(file)) == Some(Now(map[t := Idle]))
    {
      DeleteKeepsCoherent(files, next, objects, strong, registry, file);
      files := files - {file};
    }
  }

  /** Between uninterrupted calls any two open connections to one incarnation of a file hold the same
      object, under whatever aliases they were opened: only interleaved opens can split a file. */
  lemma CoherentShares(s: State, strong: seq<nat>)
    requires Coherent(s.files, s.next, s.objects, strong, s.registry) && Counted(strong, s.conns, None)
    requires InRange(|s.objects|, s.registry, s.conns)
    requires forall i | 0 <= i < |s.conns| :: s.conns[i].open ==> s.conns[i].database.Some?
    ensures Sharing(s)
  {
    hide FilesOk, EntriesCurrent, AllRegistered;
    forall i, j | 0 <= i < |s.conns| && 0 <= j < |s.conns| && s.conns[i].open && s.conns[j].open
      ensures SameObject(s, s.conns[i].database, s.conns[j].database)
    {
      var o, p := s.conns[i].database.value, s.conns[j].database.value;
      HoldersExist(s.conns, o);
      HoldersExist(s.conns, p);
    }
  }

  // ---------- Uninterrupted calls are runs of the protocol ----------

  /** Some connection holds the object. */
  ghost predicate Held(conns: seq<Conn>, o: Obj) {
    exists i :: 0 <= i < |conns| && conns[i].database == Some(o)
  }

  /** The registry has a live object for the path's file. */
  ghost predicate Hit(canon: Path -> Path, s: State, path: Path) {
    canon(path) in s.files && canon(path) in s.registry && Held(s.conns, s.registry[canon(path)])
  }

  function Serve(t: Tid, hit: bool, build_ok: bool): seq<Action> {
    [ComputeKey(t)] + ([Lock(t)] + ([CheckExists(t)] + Served(t, hit, build_ok)))
  }

  function Served(t: Tid, hit: bool, build_ok: bool): seq<Action> {
    if hit then [Lookup(t)] + []
    else if build_ok then [Build(t, true)] + ([Insert(t)] + [])
    else [Build(t, false)] + []
  }

  ghost function OpenRun(
    canon: Path -> Path, s: State, t: Tid, path: Path, create: bool, build_ok: bool, connect_ok: bool): seq<Action>
  {
    if !create && canon(path) !in s.files then [SD.Open(t, path, create)] + []
    else
      var hit := Hit(canon, s, path);
      [SD.Open(t, path, create)]
        + (Serve(t, hit, build_ok) + (if build_ok || hit then [Connect(t, connect_ok)] else []))
  }

  lemma LiveHeld(s: State, o: Obj)
    requires forall u: Tid :: !Refers(PcOf(s, u), o)
    ensures Live(s, o) <==> Held(s.conns, o)
  {
  }

  ghost function Retained(s: State): map<Path, Obj> {
    map k | k in s.registry && Live(s, s.registry[k]) :: s.registry[k]
  }

  /** One more step at the front. */
  lemma Then(canon: Path -> Path, s: State, a: Action, s': State, rest: seq<Action>, end: State)
    requires Step(canon, s, a).Some? && AfterAll(canon, s', rest) == Some(end)
    requires var n := Step(canon, s, a).value;
             && n.threads == s'.threads && n.registry == s'.registry
             && n == s'.(threads := n.threads, registry := n.registry)
    ensures AfterAll(canon, s, [a] + rest) == Some(end)
  {
    hide Step;
    assert ([a] + rest)[1..] == rest;
  }

  lemma {:induction false} Joined(canon: Path -> Path, s: State, a: seq<Action>, s': State, b: seq<Action>)
    requires AfterAll(canon, s, a) == Some(s')
    ensures AfterAll(canon, s, a + b) == AfterAll(canon, s', b)
    decreases |a|
  {
    hide Step;
    if a == [] {
      assert a + b == b;
    } else {
      assert (a + b)[1..] == a[1..] + b;
      Joined(canon, Step(canon, s, a[0]).value, a[1..], s', b);
    }
  }

  lemma Ended(canon: Path -> Path, s: State)
    ensures AfterAll(canon, s, []) == Some(s)
  {
  }

  function WithPc(s: State, t: Tid, pc: Pc): State {
    s.(threads := map[t := pc])
  }

  /** What a thread knows when it has the lock and has looked for the file. */
  function Looked(canon: Path -> Path, s: State, t: Tid, path: Path): State {
    var file := canon(path);
    var there := file in s.files;
    var key, floor := if there then file else path, if there then s.files[file] else s.next;
    WithPc(s, t, Checked(path, key, floor, there)).(lock := Some(t))
  }

  ghost predicate Opens(s: State, t: Tid, path: Path) {
    s.lock == None && s.threads == map[t := Opening(path)]
  }

  lemma LookSteps(canon: Path -> Path, s: State, path: Path, t: Tid, rest: seq<Action>, end: State)
    requires Opens(s, t, path) && AfterAll(canon, Looked(canon, s, t, path), rest) == Some(end)
    ensures AfterAll(canon, s, [ComputeKey(t)] + ([Lock(t)] + ([CheckExists(t)] + rest))) == Some(end)
  {
    hide AfterAll, Live;
    var file := canon(path);
    var key := if file in s.files then file else path;
    var floor := if file in s.files then s.files[file] else s.next;
    var locked := WithPc(s, t, Locked(path, key, floor)).(lock := Some(t));
    Then(canon, locked, CheckExists(t), Looked(canon, s, t, path), rest, end);
    Then(canon, WithPc(s, t, Keyed(path, key)), Lock(t), locked, [CheckExists(t)] + rest, end);
    Then(canon, s, ComputeKey(t), WithPc(s, t, Keyed(path, key)), [Lock(t)] + ([CheckExists(t)] + rest), end);
  }

  lemma LookedLive(canon: Path -> Path, s: State, t: Tid, path: Path, o: Obj)
    ensures Live(Looked(canon, s, t, path), o) <==> Held(s.conns, o)
  {
    LiveHeld(Looked(canon, s, t, path), o);
  }

  lemma HitSteps(canon: Path -> Path, s: State, path: Path, t: Tid, build_ok: bool)
    requires Opens(s, t, path) && Hit(canon, s, path)
    ensures AfterAll(canon, s, Serve(t, true, build_ok))
         == Some(WithPc(s, t, HasRef(s.registry[canon(path)], s.files[canon(path)])))
  {
    hide AfterAll, Live, Held;
    var end := WithPc(s, t, HasRef(s.registry[canon(path)], s.files[canon(path)]));
    LookedLive(canon, s, t, path, s.registry[canon(path)]);
    Ended(canon, end);
    Then(canon, Looked(canon, s, t, path), Lookup(t), end, [], end);
    LookSteps(canon, s, path, t, [Lookup(t)] + [], end);
  }

  lemma FailedSteps(canon: Path -> Path, s: State, path: Path, t: Tid)
    requires Opens(s, t, path) && !Hit(canon, s, path)
    ensures AfterAll(canon, s, Serve(t, false, false)) == Some(WithPc(s, t, Idle))
  {
    hide AfterAll, Live, Held;
    var end := WithPc(s, t, Idle);
    if canon(path) in s.registry {
      LookedLive(canon, s, t, path, s.registry[canon(path)]);
    }
    Ended(canon, end);
    Then(canon, Looked(canon, s, t, path), Build(t, false), end, [], end);
    LookSteps(canon, s, path, t, [Build(t, false)] + [], end);
  }

  /** The state with the object built and not yet registered. */
  function Building(canon: Path -> Path, s: State, t: Tid, path: Path): State {
    var file := canon(path);
    var there := file in s.files;
    var floor := if there then s.files[file] else s.next;
    State(if there then s.files else s.files[file := s.next], if there then s.next else s.next + 1,
          s.objects + [Bound(file, floor)], s.registry, Some(t),
          map[t := Built(path, if there then file else path, floor, |s.objects|)], s.conns)
  }

  /** The state with the object registered. */
  ghost function Rebuilt(canon: Path -> Path, s: State, t: Tid, path: Path): State {
    var b, o := Building(canon, s, t, path), |s.objects|;
    WithPc(b, t, HasRef(o, b.threads[t].floor)).(lock := None, registry := Retained(b)[canon(path) := o])
  }

  lemma BuildStep(canon: Path -> Path, s: State, path: Path, t: Tid, rest: seq<Action>, end: State)
    requires Opens(s, t, path) && !Hit(canon, s, path)
    requires AfterAll(canon, Building(canon, s, t, path), rest) == Some(end)
    ensures AfterAll(canon, Looked(canon, s, t, path), [Build(t, true)] + rest) == Some(end)
  {
    hide AfterAll, Live, Held;
    if canon(path) in s.registry {
      LookedLive(canon, s, t, path, s.registry[canon(path)]);
    }
    Then(canon, Looked(canon, s, t, path), Build(t, true), Building(canon, s, t, path), rest, end);
  }

  lemma InsertStep(canon: Path -> Path, s: State, path: Path, t: Tid)
    ensures AfterAll(canon, Building(canon, s, t, path), [Insert(t)] + []) == Some(Rebuilt(canon, s, t, path))
  {
    hide AfterAll, Live;
    var end := Rebuilt(canon, s, t, path);
    Ended(canon, end);
    Then(canon, Building(canon, s, t, path), Insert(t), end, [], end);
  }

  lemma MissSteps(canon: Path -> Path, s: State, path: Path, t: Tid)
    requires Opens(s, t, path) && !Hit(canon, s, path)
    ensures AfterAll(canon, s, Serve(t, false, true)) == Some(Rebuilt(canon, s, t, path))
  {
    hide AfterAll, Live, Held, Step, Building, Rebuilt, Looked, Hit;
    var end := Rebuilt(canon, s, t, path);
    InsertStep(canon, s, path, t);
    BuildStep(canon, s, path, t, [Insert(t)] + [], end);
    LookSteps(canon, s, path, t, [Build(t, true)] + ([Insert(t)] + []), end);
  }

  lemma RefusedSteps(canon: Path -> Path, s: State, t: Tid, path: Path)
    requires s.threads == map[t := Idle] && canon(path) !in s.files
    ensures AfterAll(canon, s, [SD.Open(t, path, false)] + []) == Some(s)
  {
    hide AfterAll, Live;
    Ended(canon, s);
    Then(canon, s, SD.Open(t, path, false), s, [], s);
  }

  /** A whole open, given what serving the path does. */
  lemma OpenSteps(canon: Path -> Path, s: State, t: Tid, path: Path, create: bool,
                  serve: seq<Action>, served: State, connect: seq<Action>, end: State)
    requires s.threads == map[t := Idle] && (create || canon(path) in s.files)
    requires AfterAll(canon, WithPc(s, t, Opening(path)), serve) == Some(served)
    requires AfterAll(canon, served, connect) == Some(end)
    ensures AfterAll(canon, s, [SD.Open(t, path, create)] + (serve + connect)) == Some(end)
  {
    hide AfterAll, Live;
    Joined(canon, WithPc(s, t, Opening(path)), serve, served, connect);
    Then(canon, s, SD.Open(t, path, create), WithPc(s, t, Opening(path)), serve + connect, end);
  }

  lemma ConnectSteps(canon: Path -> Path, served: State, t: Tid, o: Obj, floor: Incarnation, ok: bool)
    requires served.threads == map[t := HasRef(o, floor)]
    ensures AfterAll(canon, served, [Connect(t, ok)])
         == Some(WithPc(served, t, Idle).(conns := if ok then served.conns + [Conn(true, Some(o))] else served.conns))
  {
    hide AfterAll, Live;
    var end := WithPc(served, t, Idle).(conns := if ok then served.conns + [Conn(true, Some(o))] else served.conns);
    Ended(canon, end);
    Then(canon, served, Connect(t, ok), end, [], end);
    assert [Connect(t, ok)] + [] == [Connect(t, ok)];
  }

  lemma CloseSteps(canon: Path -> Path, s: State, c: nat)
    requires c < |s.conns|
    ensures AfterAll(canon, s, [CloseConnection(c), CloseDatabase(c)])
         == Some(s.(conns := s.conns[c := Conn(false, None)]))
  {
    hide AfterAll, Live;
    var end := s.(conns := s.conns[c := Conn(false, None)]);
    var half := s.(conns := s.conns[c := s.conns[c].(open := false)]);
    Ended(canon, end);
    assert half.conns[c := Conn(false, None)] == end.conns;
    Then(canon, half, CloseDatabase(c), end, [], end);
    Then(canon, s, CloseConnection(c), half, [CloseDatabase(c)] + [], end);
    assert [CloseConnection(c)] + ([CloseDatabase(c)] + []) == [CloseConnection(c), CloseDatabase(c)];
  }
}
