/** The Turso driver's registry: all connections to one file share one database object.  Opens,
    closes and file deletions of any number of threads, one atomic access at a time. */
module SharedDatabase {
  import opened Wrappers

  type Tid = nat
  type Path = string
  type Obj = nat       // a database object
  type Incarnation = nat

  /** What a database object was built on. */
  datatype Bound = Bound(file: Path, incarnation: Incarnation)

  /** The fields of a `Conn`: `open` is the connection slot, `database` the shared reference. */
  datatype Conn = Conn(open: bool, database: Option<Obj>)

  /** The progress of an open in one thread.  `present` and `floor` (the lowest incarnation this open
      may serve) are what the locked section saw. */
  datatype Pc =
    | Idle
    | Opening(path: Path)
    | Keyed(path: Path, key: Path)
    | Locked(path: Path, key: Path, floor: Incarnation)
    | Checked(path: Path, key: Path, floor: Incarnation, present: bool)
    | Built(path: Path, key: Path, floor: Incarnation, obj: Obj)
    | HasRef(obj: Obj, floor: Incarnation)

  datatype State = State(
    files: map<Path, Incarnation>,   // existing files, by canonical path
    next: Incarnation,               // the next file created gets this number
    objects: seq<Bound>,             // every object built so far
    registry: map<Path, Obj>,        // weak references
    lock: Option<Tid>,
    threads: map<Tid, Pc>,
    conns: seq<Conn>
  )

  const START := State(map[], 0, [], map[], None, map[], [])

  datatype Action =
    | Open(t: Tid, path: Path, create: bool)
    | ComputeKey(t: Tid)
    | Lock(t: Tid)
    | CheckExists(t: Tid)
    | Lookup(t: Tid)
    | Build(t: Tid, ok: bool)
    | Insert(t: Tid)
    | Connect(t: Tid, ok: bool)
    | CloseConnection(c: nat)
    | CloseDatabase(c: nat)
    | Delete(file: Path)
    | CreateOutside(file: Path)      // another program creates the file

  function PcOf(s: State, t: Tid): Pc {
    if t in s.threads then s.threads[t] else Idle
  }

  function At(s: State, t: Tid, pc: Pc): State {
    s.(threads := s.threads[t := pc])
  }

  /** A thread's own strong reference. */
  predicate Refers(pc: Pc, o: Obj) {
    (pc.Built? && pc.obj == o) || (pc.HasRef? && pc.obj == o)
  }

  /** The object has a strong reference, so a weak one upgrades. */
  ghost predicate Live(s: State, o: Obj) {
    || (exists t: Tid :: Refers(PcOf(s, t), o))
    || (exists i :: 0 <= i < |s.conns| && s.conns[i].database == Some(o))
  }

  /** `std::fs::canonicalize(path)`, which fails while the file does not exist. */
  function Canonicalize(canon: Path -> Path, s: State, path: Path): Option<Path> {
    if canon(path) in s.files then Some(canon(path)) else None
  }

  /** One step; None where the action is not enabled.  `canon` maps a path to the file it names. */
  ghost function Step(canon: Path -> Path, s: State, a: Action): Option<State> {
    match a
    case Open(t, path, create) =>
      if PcOf(s, t) != Idle then None
      else if !create && canon(path) !in s.files then Some(s)
      else Some(At(s, t, Opening(path)))
    case ComputeKey(t) =>
      var pc := PcOf(s, t);
      if !pc.Opening? then None
      else
        var found := Canonicalize(canon, s, pc.path);
        Some(At(s, t, Keyed(pc.path, if found.Some? then found.value else pc.path)))
    case Lock(t) =>
      var pc := PcOf(s, t);
      if !pc.Keyed? || s.lock.Some? then None
      else
        var file := canon(pc.path);
        Some(At(s, t, Locked(pc.path, pc.key, if file in s.files then s.files[file] else s.next)).(lock := Some(t)))
    case CheckExists(t) =>
      var pc := PcOf(s, t);
      if !pc.Locked? then None
      else Some(At(s, t, Checked(pc.path, pc.key, pc.floor, canon(pc.path) in s.files)))
    case Lookup(t) =>
      var pc := PcOf(s, t);
      if pc.Checked? && pc.present && pc.key in s.registry && Live(s, s.registry[pc.key])
      then Some(At(s, t, HasRef(s.registry[pc.key], pc.floor)).(lock := None))
      else None
    case Build(t, ok) =>
      var pc := PcOf(s, t);
      if !pc.Checked? || (pc.present && pc.key in s.registry && Live(s, s.registry[pc.key])) then None
      else if !ok then Some(At(s, t, Idle).(lock := None))
      else
        var file := canon(pc.path);
        var s' := if file in s.files then s else s.(files := s.files[file := s.next], next := s.next + 1);
        Some(At(s', t, Built(pc.path, pc.key, pc.floor, |s.objects|)).(
             objects := s.objects + [Bound(file, s'.files[file])]))
    case Insert(t) =>
      var pc := PcOf(s, t);
      if !pc.Built? then None
      else
        var found := Canonicalize(canon, s, pc.path);
        var retained := map k | k in s.registry && Live(s, s.registry[k]) :: s.registry[k];
        Some(At(s, t, HasRef(pc.obj, pc.floor)).(
             lock := None, registry := retained[(if found.Some? then found.value else pc.key) := pc.obj]))
    case Connect(t, ok) =>
      var pc := PcOf(s, t);
      if !pc.HasRef? then None
      else if !ok then Some(At(s, t, Idle))
      else Some(At(s, t, Idle).(conns := s.conns + [Conn(true, Some(pc.obj))]))
    case CloseConnection(c) =>
      if c < |s.conns| then Some(s.(conns := s.conns[c := s.conns[c].(open := false)])) else None
    case CloseDatabase(c) =>
      if c < |s.conns| && !s.conns[c].open then Some(s.(conns := s.conns[c := Conn(false, None)])) else None
    case Delete(file) => if file in s.files then Some(s.(files := s.files - {file})) else None
    case CreateOutside(file) =>
      if file in s.files then None else Some(s.(files := s.files[file := s.next], next := s.next + 1))
  }

  ghost function Exec(canon: Path -> Path, run: seq<Action>): Option<State> {
    if run == [] then Some(START)
    else
      var before := Exec(canon, run[..|run| - 1]);
      if before.None? then None else Step(canon, before.value, run[|run| - 1])
  }

  /** The run opens only `paths`, and other programs create only files in `outside`. */
  predicate Within(run: seq<Action>, paths: set<Path>, outside: set<Path>) {
    forall a <- run :: (a.Open? ==> a.path in paths) && (a.CreateOutside? ==> a.file in outside)
  }

  /** Two open connections to the same incarnation of a file hold the same database object. */
  ghost predicate Sharing(s: State) {
    forall i, j | 0 <= i < |s.conns| && 0 <= j < |s.conns| && s.conns[i].open && s.conns[j].open ::
      SameObject(s, s.conns[i].database, s.conns[j].database)
  }

  predicate SameObject(s: State, a: Option<Obj>, b: Option<Obj>) {
    && a.Some? && b.Some? && a.value < |s.objects| && b.value < |s.objects|
    && (s.objects[a.value].incarnation == s.objects[b.value].incarnation ==> a == b)
  }

  /** No open under way holds an object older than the file that existed when it took the lock. */
  ghost predicate Fresh(s: State) {
    forall t: Tid :: var pc := PcOf(s, t);
      pc.HasRef? ==> pc.obj < |s.objects| && s.objects[pc.obj].incarnation >= pc.floor
  }

  // ---------- The invariant, for canonical paths ----------

  ghost predicate Canonical(canon: Path -> Path) {
    forall p: Path :: canon(p) == p
  }

  predicate InLock(pc: Pc) {
    pc.Locked? || pc.Checked? || pc.Built?
  }

  /** Files and objects: incarnation numbers are below `next`, belong to one file each, and only the
      latest one of a file can exist. */
  predicate FilesOk(files: map<Path, Incarnation>, next: Incarnation, objects: seq<Bound>) {
    && (forall f <- files :: files[f] < next)
    && (forall f, g | f in files && g in files && files[f] == files[g] :: f == g)
    && (forall o | 0 <= o < |objects| :: ObjectOk(files, next, objects[o]))
  }

  predicate ObjectOk(files: map<Path, Incarnation>, next: Incarnation, b: Bound) {
    && b.incarnation < next
    && (forall f <- files :: b.incarnation == files[f] ==> b.file == f)
    && (b.file in files ==> b.incarnation <= files[b.file])
  }

  lemma FilesAfterCreate(files: map<Path, Incarnation>, next: Incarnation, objects: seq<Bound>, f: Path)
    requires FilesOk(files, next, objects) && f !in files
    ensures FilesOk(files[f := next], next + 1, objects)
  {
    var files' := files[f := next];
    forall o | 0 <= o < |objects| ensures ObjectOk(files', next + 1, objects[o]) {
      assert ObjectOk(files, next, objects[o]);
    }
  }

  lemma FilesAfterDelete(files: map<Path, Incarnation>, next: Incarnation, objects: seq<Bound>, f: Path)
    requires FilesOk(files, next, objects)
    ensures FilesOk(files - {f}, next, objects)
  {
    forall o | 0 <= o < |objects| ensures ObjectOk(files - {f}, next, objects[o]) {
      assert ObjectOk(files, next, objects[o]);
    }
  }

  lemma FilesAfterObject(files: map<Path, Incarnation>, next: Incarnation, objects: seq<Bound>, f: Path)
    requires FilesOk(files, next, objects) && f in files
    ensures FilesOk(files, next, objects + [Bound(f, files[f])])
  {
  }

  /** Registry entries name objects of their own file. */
  predicate EntriesOk(s: State) {
    forall k <- s.registry :: s.registry[k] < |s.objects| && s.objects[s.registry[k]].file == k
  }

  /** One thread is in the locked section, and references are to existing objects. */
  ghost predicate ThreadsOk(s: State) {
    forall t: Tid :: var pc := PcOf(s, t);
      && (InLock(pc) <==> s.lock == Some(t))
      && (pc.Built? || pc.HasRef? ==> pc.obj < |s.objects|)
  }

  /** An open connection holds its database. */
  predicate ConnsOk(s: State) {
    forall i | 0 <= i < |s.conns| ::
      && (s.conns[i].open ==> s.conns[i].database.Some?)
      && (s.conns[i].database.Some? ==> s.conns[i].database.value < |s.objects|)
  }

  /** What an open under way knows, whatever other programs create.  Its key is its path; a file that
      it found missing has no object; nothing else in use belongs to the file it built an object on. */
  ghost predicate PcOk(s: State, pc: Pc) {
    && (pc.Keyed? || InLock(pc) ==> pc.key == pc.path)
    && (pc.Checked? && !pc.present ==> forall o | 0 <= o < |s.objects| :: !OfFile(s, o, pc.path))
    && (pc.Built? ==>
          && pc.obj < |s.objects| && s.objects[pc.obj].file == pc.path
          && forall o | 0 <= o < |s.objects| && o != pc.obj :: !(OfFile(s, o, pc.path) && Live(s, o)))
  }

  /** The object belongs to the file that exists now under the path. */
  predicate OfFile(s: State, o: Obj, path: Path)
    requires o < |s.objects|
  {
    s.objects[o].file == path && path in s.files && s.objects[o].incarnation == s.files[path]
  }

  ghost predicate PcsOk(s: State) {
    forall t: Tid :: PcOk(s, PcOf(s, t))
  }

  /** What an open of a file knows that no other program creates: the file it saw is not replaced while
      it holds the lock, and what it returns is no older than what existed when it took the lock. */
  ghost predicate PcFresh(s: State, outside: set<Path>, pc: Pc) {
    && (InLock(pc) && pc.path !in outside ==>
          && pc.floor <= s.next
          && (!pc.Built? && pc.path in s.files ==> s.files[pc.path] == pc.floor)
          && (pc.Checked? && !pc.present ==> pc.path !in s.files)
          && (pc.Checked? && pc.present && pc.path in s.registry && Live(s, s.registry[pc.path]) ==>
                s.registry[pc.path] < |s.objects| && s.objects[s.registry[pc.path]].incarnation == pc.floor)
          && (pc.Built? ==>
                && pc.obj < |s.objects| && s.objects[pc.obj].incarnation >= pc.floor
                && (pc.path in s.files ==> s.files[pc.path] == s.objects[pc.obj].incarnation)))
    && (pc.HasRef? && pc.obj < |s.objects| && s.objects[pc.obj].file !in outside ==>
          s.objects[pc.obj].incarnation >= pc.floor)
  }

  ghost predicate PcsFresh(s: State, outside: set<Path>) {
    forall t: Tid :: PcFresh(s, outside, PcOf(s, t))
  }

  /** The object a thread has built but not yet registered. */
  predicate Pending(s: State, o: Obj) {
    s.lock.Some? && PcOf(s, s.lock.value).Built? && PcOf(s, s.lock.value).obj == o
  }

  predicate PendingAt(s: State, file: Path) {
    s.lock.Some? && PcOf(s, s.lock.value).Built? && PcOf(s, s.lock.value).path == file
  }

  /** A live object of an existing file's incarnation is registered, or about to be. */
  ghost predicate RegistryOk(s: State) {
    forall o | 0 <= o < |s.objects| && Current(s, o) :: Registered(s, o)
  }

  /** A live registered object of an existing file that no other program creates is of its current
      incarnation, or about to be replaced. */
  ghost predicate EntriesFresh(s: State, outside: set<Path>) {
    forall k | k in s.registry && k !in outside && Entry(s, k) :: EntryCurrent(s, k)
  }

  /** Live objects of one incarnation are one object. */
  ghost predicate Unique(s: State) {
    forall o, p | 0 <= o < |s.objects| && 0 <= p < |s.objects| && Live(s, o) && Live(s, p)
      && s.objects[o].incarnation == s.objects[p].incarnation :: o == p
  }

  ghost predicate Inv(s: State) {
    FilesOk(s.files, s.next, s.objects) && EntriesOk(s) && ThreadsOk(s) && ConnsOk(s)
    && PcsOk(s) && RegistryOk(s) && Unique(s)
  }

  ghost predicate FreshInv(s: State, outside: set<Path>) {
    PcsFresh(s, outside) && EntriesFresh(s, outside)
  }

  lemma OthersKeepPc(canon: Path -> Path, s: State, a: Action, t: Tid)
    requires Step(canon, s, a).Some?
    requires Opens(a) ==> a.t != t
    ensures PcOf(Step(canon, s, a).value, t) == PcOf(s, t)
  {
  }

  /** No step revives an object: what is live afterwards was live before, or has just been built. */
  lemma LiveOnlyByBuild(canon: Path -> Path, s: State, a: Action, o: Obj)
    requires Step(canon, s, a).Some? && Live(Step(canon, s, a).value, o)
    ensures Live(s, o) || (a.Build? && a.ok && o == |s.objects|)
  {
    var s' := Step(canon, s, a).value;
    if t: Tid :| Refers(PcOf(s', t), o) {
      if !Refers(PcOf(s, t), o) {
        assert t == a.t && (a.Lookup? || a.Build?);
      }
    } else {
      var i :| 0 <= i < |s'.conns| && s'.conns[i].database == Some(o);
      if i < |s.conns| {
        assert s.conns[i].database == Some(o);
      } else {
        assert Refers(PcOf(s, a.t), o);
      }
    }
  }

  lemma StepKeepsFiles(canon: Path -> Path, s: State, a: Action)
    requires FilesOk(s.files, s.next, s.objects) && Step(canon, s, a).Some?
    ensures var s' := Step(canon, s, a).value; FilesOk(s'.files, s'.next, s'.objects)
  {
    hide FilesOk, Live;
    if a.Build? && a.ok {
      var file := canon(PcOf(s, a.t).path);
      if file !in s.files {
        FilesAfterCreate(s.files, s.next, s.objects, file);
        FilesAfterObject(s.files[file := s.next], s.next + 1, s.objects, file);
      } else {
        FilesAfterObject(s.files, s.next, s.objects, file);
      }
    } else if a.Delete? {
      FilesAfterDelete(s.files, s.next, s.objects, a.file);
    } else if a.CreateOutside? {
      FilesAfterCreate(s.files, s.next, s.objects, a.file);
    }
  }

  lemma StepKeepsEntries(canon: Path -> Path, s: State, a: Action)
    requires Canonical(canon) && EntriesOk(s) && PcsOk(s) && Step(canon, s, a).Some?
    ensures EntriesOk(Step(canon, s, a).value)
  {
    hide Live;
    if a.Insert? {
      assert PcOk(s, PcOf(s, a.t));
    }
  }

  lemma StepKeepsThreads(canon: Path -> Path, s: State, a: Action)
    requires EntriesOk(s) && ThreadsOk(s) && Step(canon, s, a).Some?
    ensures ThreadsOk(Step(canon, s, a).value)
  {
    hide Live;
    var s' := Step(canon, s, a).value;
    forall t: Tid
      ensures InLock(PcOf(s', t)) <==> s'.lock == Some(t)
      ensures PcOf(s', t).Built? || PcOf(s', t).HasRef? ==> PcOf(s', t).obj < |s'.objects|
    {
      assert InLock(PcOf(s, t)) <==> s.lock == Some(t);
    }
  }

  lemma StepKeepsConns(canon: Path -> Path, s: State, a: Action)
    requires ThreadsOk(s) && ConnsOk(s) && Step(canon, s, a).Some?
    ensures ConnsOk(Step(canon, s, a).value)
  {
    hide Live;
  }

  predicate Opens(a: Action) {
    a.Open? || a.ComputeKey? || a.Lock? || a.CheckExists? || a.Lookup? || a.Build? || a.Insert? || a.Connect?
  }

  /** A step other than a thread's own build brings no object into a file. */
  lemma OfFileOnlyByBuild(canon: Path -> Path, s: State, a: Action, o: Obj, path: Path)
    requires FilesOk(s.files, s.next, s.objects) && Step(canon, s, a).Some?
    ensures |s.objects| <= |Step(canon, s, a).value.objects|
    ensures o < |s.objects| && OfFile(Step(canon, s, a).value, o, path) ==> OfFile(s, o, path)
    ensures !a.Build? ==> |s.objects| == |Step(canon, s, a).value.objects|
  {
    hide Live;
    if o < |s.objects| {
      assert ObjectOk(s.files, s.next, s.objects[o]);
    }
  }

  /** The step of another thread leaves what an open knows intact. */
  lemma StepKeepsOtherPc(canon: Path -> Path, s: State, a: Action, t: Tid)
    requires Canonical(canon) && Inv(s) && Step(canon, s, a).Some?
    requires PcOf(Step(canon, s, a).value, t) == PcOf(s, t) && (Opens(a) ==> a.t != t)
    ensures PcOk(Step(canon, s, a).value, PcOf(s, t))
  {
    var s', pc := Step(canon, s, a).value, PcOf(s, t);
    assert PcOk(s, pc);
    if InLock(pc) {
      OnlyHolderBuilds(canon, s, a, t);
      forall o | 0 <= o < |s'.objects| && OfFile(s', o, pc.path)
        ensures OfFile(s, o, pc.path) && (Live(s', o) ==> Live(s, o))
      {
        OfFileOnlyByBuild(canon, s, a, o, pc.path);
        if Live(s', o) {
          LiveOnlyByBuild(canon, s, a, o);
        }
      }
      hide Live, Step;
    }
  }

  lemma OnlyHolderBuilds(canon: Path -> Path, s: State, a: Action, t: Tid)
    requires ThreadsOk(s) && Step(canon, s, a).Some? && InLock(PcOf(s, t)) && (Opens(a) ==> a.t != t)
    ensures !a.Build? && !a.Insert? && |Step(canon, s, a).value.objects| == |s.objects|
  {
    hide Live;
    assert InLock(PcOf(s, t)) <==> s.lock == Some(t);
    assert forall u: Tid :: InLock(PcOf(s, u)) ==> u == t;
  }

  lemma BuildKeepsPc(canon: Path -> Path, s: State, a: Action)
    requires Canonical(canon) && Inv(s) && Step(canon, s, a).Some? && a.Build?
    ensures PcOk(Step(canon, s, a).value, PcOf(Step(canon, s, a).value, a.t))
  {
    var s', pc := Step(canon, s, a).value, PcOf(s, a.t);
    assert PcOk(s, pc);
    if a.ok {
      forall o | 0 <= o < |s'.objects| && o != |s.objects| && OfFile(s', o, pc.path) ensures !Live(s', o) {
        OfFileOnlyByBuild(canon, s, a, o, pc.path);
        if Live(s', o) {
          LiveOnlyByBuild(canon, s, a, o);
          BuildIsNeeded(s, a.t, o);
        }
      }
    }
    hide Live;
  }

  lemma OpenKeepsPc(canon: Path -> Path, s: State, a: Action)
    requires Canonical(canon) && Inv(s) && Step(canon, s, a).Some? && Opens(a) && !a.Build?
    ensures PcOk(Step(canon, s, a).value, PcOf(Step(canon, s, a).value, a.t))
  {
    hide Live, RegistryOk, Unique, ConnsOk, ThreadsOk, FilesOk, EntriesOk;
    assert PcOk(s, PcOf(s, a.t));
  }

  lemma StepKeepsPcs(canon: Path -> Path, s: State, a: Action)
    requires Canonical(canon) && Inv(s) && Step(canon, s, a).Some?
    ensures PcsOk(Step(canon, s, a).value)
  {
    var s' := Step(canon, s, a).value;
    forall t: Tid ensures PcOk(s', PcOf(s', t)) {
      hide Step, Inv, PcOk;
      if !Opens(a) || a.t != t {
        OthersKeepPc(canon, s, a, t);
        StepKeepsOtherPc(canon, s, a, t);
      } else if a.Build? {
        BuildKeepsPc(canon, s, a);
      } else {
        OpenKeepsPc(canon, s, a);
      }
    }
  }

  /** A thread about to build has no live object of the file's current incarnation in its way. */
  lemma BuildIsNeeded(s: State, t: Tid, o: Obj)
    requires Inv(s) && PcOf(s, t).Checked? && o < |s.objects| && Live(s, o)
    requires var pc := PcOf(s, t); !(pc.present && pc.key in s.registry && Live(s, s.registry[pc.key]))
    requires PcOf(s, t).path in s.files
    ensures s.objects[o].incarnation != s.files[PcOf(s, t).path]
  {
    var pc := PcOf(s, t);
    assert PcOk(s, pc);
    assert pc.present || !OfFile(s, o, pc.path);
    assert InLock(pc) <==> s.lock == Some(t);
    assert ObjectOk(s.files, s.next, s.objects[o]);
    assert s.objects[o].incarnation == s.files[pc.path] ==> Current(s, o);
    hide Live;
  }

  lemma StepKeepsUnique(canon: Path -> Path, s: State, a: Action)
    requires Canonical(canon) && Inv(s) && Step(canon, s, a).Some?
    ensures Unique(Step(canon, s, a).value)
  {
    assert Unique(s);
    StepKeepsObjects(canon, s, a);
    hide Step, Live, Inv;
    var s' := Step(canon, s, a).value;
    forall o, p | 0 <= o < |s'.objects| && 0 <= p < |s'.objects| && Live(s', o) && Live(s', p)
      && s'.objects[o].incarnation == s'.objects[p].incarnation
      ensures o == p
    {
      LiveOnlyByBuild(canon, s, a, o);
      LiveOnlyByBuild(canon, s, a, p);
      if o < |s.objects| && p < |s.objects| {
        assert Live(s, o) && Live(s, p);
      } else if o != p {
        NewObjectDiffers(canon, s, a, if o < |s.objects| then o else p);
      }
    }
  }

  lemma StepKeepsObjects(canon: Path -> Path, s: State, a: Action)
    requires Step(canon, s, a).Some?
    ensures s.objects <= Step(canon, s, a).value.objects
    ensures |Step(canon, s, a).value.objects| == |s.objects| + (if a.Build? && a.ok then 1 else 0)
  {
    hide Live;
  }

  lemma NewObjectDiffers(canon: Path -> Path, s: State, a: Action, o: Obj)
    requires Canonical(canon) && Inv(s) && Step(canon, s, a).Some? && a.Build? && a.ok
    requires o < |s.objects| && Live(s, o)
    ensures var s' := Step(canon, s, a).value;
            s'.objects[o].incarnation != s'.objects[|s.objects|].incarnation
  {
    var path := PcOf(s, a.t).path;
    assert PcOk(s, PcOf(s, a.t));
    if path in s.files {
      BuildIsNeeded(s, a.t, o);
    } else {
      assert ObjectOk(s.files, s.next, s.objects[o]);
    }
  }

  /** `o` is live and belongs to the file that exists now. */
  ghost predicate Current(s: State, o: Obj) {
    && o < |s.objects| && Live(s, o)
    && s.objects[o].file in s.files && s.objects[o].incarnation == s.files[s.objects[o].file]
  }

  predicate Registered(s: State, o: Obj)
    requires o < |s.objects|
  {
    (s.objects[o].file in s.registry && s.registry[s.objects[o].file] == o) || Pending(s, o)
  }

  lemma RegisteredAfterInsert(canon: Path -> Path, s: State, a: Action, o: Obj)
    requires Canonical(canon) && Inv(s) && a.Insert? && Step(canon, s, a).Some?
    requires Current(Step(canon, s, a).value, o)
    ensures Registered(Step(canon, s, a).value, o)
  {
    var s', pc := Step(canon, s, a).value, PcOf(s, a.t);
    LiveOnlyByBuild(canon, s, a, o);
    assert PcOk(s, pc);
    assert InLock(pc) <==> s.lock == Some(a.t);
    assert Live(s, pc.obj) by { assert Refers(pc, pc.obj); }
    assert Current(s, o);
    assert o != pc.obj ==> !OfFile(s, o, pc.path);
    hide Live, Current, PcsOk, FilesOk, ThreadsOk, ConnsOk;
    assert s'.registry[pc.path] == pc.obj;
  }

  lemma RegisteredAfterBuild(canon: Path -> Path, s: State, a: Action, o: Obj)
    requires Canonical(canon) && Inv(s) && a.Build? && Step(canon, s, a).Some?
    requires Current(Step(canon, s, a).value, o)
    ensures Registered(Step(canon, s, a).value, o)
  {
    var s', pc := Step(canon, s, a).value, PcOf(s, a.t);
    LiveOnlyByBuild(canon, s, a, o);
    assert InLock(pc) <==> s.lock == Some(a.t);
    if o < |s.objects| {
      assert ObjectOk(s.files, s.next, s.objects[o]);
      assert Current(s, o);
    }
    hide Live, Current, PcsOk, ThreadsOk, ConnsOk, FilesOk;
  }

  lemma RegisteredAfterOther(canon: Path -> Path, s: State, a: Action, o: Obj)
    requires Inv(s) && Step(canon, s, a).Some? && !a.Insert? && !a.Build?
    requires Current(Step(canon, s, a).value, o)
    ensures Registered(Step(canon, s, a).value, o)
  {
    OtherStepKeepsTables(canon, s, a);
    LiveOnlyByBuild(canon, s, a, o);
    OfFileOnlyByBuild(canon, s, a, o, s.objects[o].file);
    assert Current(s, o);
    hide Step, Live, Current, PcsOk, ConnsOk, FilesOk;
    assert Registered(s, o);
    if s.lock.Some? && PcOf(s, s.lock.value).Built? {
      OtherStepKeepsBuilt(canon, s, a, s.lock.value);
    }
  }

  lemma StepKeepsRegistry(canon: Path -> Path, s: State, a: Action)
    requires Canonical(canon) && Inv(s) && Step(canon, s, a).Some?
    ensures RegistryOk(Step(canon, s, a).value)
  {
    var s' := Step(canon, s, a).value;
    forall o | 0 <= o < |s'.objects| && Current(s', o) ensures Registered(s', o) {
      hide Live, Step, Inv;
      if a.Insert? {
        RegisteredAfterInsert(canon, s, a, o);
      } else if a.Build? {
        RegisteredAfterBuild(canon, s, a, o);
      } else {
        RegisteredAfterOther(canon, s, a, o);
      }
    }
  }

  lemma StepKeepsSharing(canon: Path -> Path, s: State, a: Action)
    requires Canonical(canon) && Inv(s) && Step(canon, s, a).Some?
    ensures Inv(Step(canon, s, a).value)
  {
    hide Step, PcsOk, RegistryOk, Unique, FilesOk, EntriesOk, ThreadsOk, ConnsOk;
    StepKeepsFiles(canon, s, a);
    StepKeepsEntries(canon, s, a);
    StepKeepsThreads(canon, s, a);
    StepKeepsConns(canon, s, a);
    StepKeepsPcs(canon, s, a);
    StepKeepsRegistry(canon, s, a);
    StepKeepsUnique(canon, s, a);
  }

  // ---------- Freshness of files that no other program creates ----------

  /** Other programs create files in `outside` only. */
  predicate Allowed(a: Action, outside: set<Path>) {
    a.CreateOutside? ==> a.file in outside
  }

  /** A live entry of an existing file. */
  ghost predicate Entry(s: State, k: Path) {
    k in s.registry && k in s.files && s.registry[k] < |s.objects| && Live(s, s.registry[k])
  }

  predicate EntryCurrent(s: State, k: Path)
    requires k in s.registry && k in s.files && s.registry[k] < |s.objects|
  {
    s.objects[s.registry[k]].incarnation == s.files[k] || PendingAt(s, k)
  }

  lemma EntryAfterInsert(canon: Path -> Path, s: State, outside: set<Path>, a: Action, k: Path)
    requires Canonical(canon) && Inv(s) && FreshInv(s, outside) && a.Insert? && Step(canon, s, a).Some?
    requires Entry(Step(canon, s, a).value, k) && k !in outside
    ensures EntryCurrent(Step(canon, s, a).value, k)
  {
    var s', pc := Step(canon, s, a).value, PcOf(s, a.t);
    LiveOnlyByBuild(canon, s, a, s'.registry[k]);
    assert PcOk(s, pc) && PcFresh(s, outside, pc);
    assert InLock(pc) <==> s.lock == Some(a.t);
    if k != pc.path {
      assert Entry(s, k);
    }
    hide Live, Entry, PcsOk, PcsFresh, ThreadsOk, ConnsOk, FilesOk;
  }

  lemma EntryAfterBuild(canon: Path -> Path, s: State, outside: set<Path>, a: Action, k: Path)
    requires Canonical(canon) && Inv(s) && FreshInv(s, outside) && a.Build? && Step(canon, s, a).Some?
    requires Entry(Step(canon, s, a).value, k) && k !in outside
    ensures EntryCurrent(Step(canon, s, a).value, k)
  {
    LiveOnlyByBuild(canon, s, a, s.registry[k]);
    assert InLock(PcOf(s, a.t)) <==> s.lock == Some(a.t);
    assert k in s.files ==> Entry(s, k);
    hide Live, Entry, PcsOk, PcsFresh, ThreadsOk, ConnsOk, FilesOk;
  }

  lemma EntryAfterOther(canon: Path -> Path, s: State, outside: set<Path>, a: Action, k: Path)
    requires Inv(s) && FreshInv(s, outside) && Step(canon, s, a).Some? && !a.Insert? && !a.Build?
    requires Allowed(a, outside) && k !in outside
    requires Entry(Step(canon, s, a).value, k)
    ensures EntryCurrent(Step(canon, s, a).value, k)
  {
    OtherStepKeepsTables(canon, s, a);
    var s' := Step(canon, s, a).value;
    LiveOnlyByBuild(canon, s, a, s'.registry[k]);
    assert Entry(s, k);
    hide Step, Live, Entry, PcsOk, PcsFresh, ConnsOk, FilesOk;
    assert EntryCurrent(s, k);
    if s.lock.Some? {
      if PcOf(s, s.lock.value).Built? {
        OtherStepKeepsBuilt(canon, s, a, s.lock.value);
      }
    }
  }

  /** Only an insert ends the time between building an object and registering it. */
  lemma OtherStepKeepsBuilt(canon: Path -> Path, s: State, a: Action, t: Tid)
    requires Step(canon, s, a).Some? && !a.Insert? && PcOf(s, t).Built?
    requires ThreadsOk(s)
    ensures PcOf(Step(canon, s, a).value, t) == PcOf(s, t) && Step(canon, s, a).value.lock == s.lock
  {
    hide Live;
    assert InLock(PcOf(s, t)) <==> s.lock == Some(t);
    assert forall u: Tid :: InLock(PcOf(s, u)) ==> u == t;
  }

  lemma OtherStepKeepsTables(canon: Path -> Path, s: State, a: Action)
    requires Step(canon, s, a).Some? && !a.Insert? && !a.Build?
    ensures var s' := Step(canon, s, a).value;
            && s'.registry == s.registry && s'.objects == s.objects
            && forall k <- s'.files ::
                 (k in s.files && s'.files[k] == s.files[k]) || (a.CreateOutside? && k == a.file)
  {
    hide Live;
  }

  lemma StepKeepsFreshEntries(canon: Path -> Path, s: State, outside: set<Path>, a: Action)
    requires Canonical(canon) && Inv(s) && FreshInv(s, outside) && Step(canon, s, a).Some? && Allowed(a, outside)
    ensures EntriesFresh(Step(canon, s, a).value, outside)
  {
    var s' := Step(canon, s, a).value;
    forall k | k in s'.registry && k !in outside && Entry(s', k) ensures EntryCurrent(s', k) {
      hide Step, Inv, FreshInv, Entry, Canonical;
      if a.Insert? {
        EntryAfterInsert(canon, s, outside, a, k);
      } else if a.Build? {
        EntryAfterBuild(canon, s, outside, a, k);
      } else {
        EntryAfterOther(canon, s, outside, a, k);
      }
    }
  }

  lemma StepKeepsOtherFresh(canon: Path -> Path, s: State, outside: set<Path>, a: Action, t: Tid)
    requires Canonical(canon) && Inv(s) && FreshInv(s, outside) && Step(canon, s, a).Some? && Allowed(a, outside)
    requires PcOf(Step(canon, s, a).value, t) == PcOf(s, t) && (Opens(a) ==> a.t != t)
    ensures PcFresh(Step(canon, s, a).value, outside, PcOf(s, t))
  {
    var s', pc := Step(canon, s, a).value, PcOf(s, t);
    assert PcFresh(s, outside, pc);
    assert pc.HasRef? ==> pc.obj < |s.objects|;
    if InLock(pc) {
      OnlyHolderBuilds(canon, s, a, t);
      OtherStepKeepsTables(canon, s, a);
      if pc.Checked? && pc.path in s'.registry && Live(s', s'.registry[pc.path]) {
        LiveOnlyByBuild(canon, s, a, s'.registry[pc.path]);
      }
    }
    hide Live;
  }

  lemma CheckKeepsFresh(canon: Path -> Path, s: State, outside: set<Path>, a: Action)
    requires Canonical(canon) && Inv(s) && FreshInv(s, outside) && Step(canon, s, a).Some? && a.CheckExists?
    ensures PcFresh(Step(canon, s, a).value, outside, PcOf(Step(canon, s, a).value, a.t))
  {
    var s', pc := Step(canon, s, a).value, PcOf(s, a.t);
    assert PcFresh(s, outside, pc);
    assert InLock(pc) <==> s.lock == Some(a.t);
    if pc.path in s.registry && Live(s', s.registry[pc.path]) {
      LiveOnlyByBuild(canon, s, a, s.registry[pc.path]);
      assert pc.path in s.files ==> Entry(s, pc.path);
    }
    hide Live, Entry;
  }

  lemma OpenKeepsFresh(canon: Path -> Path, s: State, outside: set<Path>, a: Action)
    requires Canonical(canon) && Inv(s) && FreshInv(s, outside) && Step(canon, s, a).Some?
    requires Opens(a) && !a.CheckExists?
    ensures PcFresh(Step(canon, s, a).value, outside, PcOf(Step(canon, s, a).value, a.t))
  {
    hide Live, RegistryOk, Unique, ConnsOk, ThreadsOk;
    assert PcOk(s, PcOf(s, a.t)) && PcFresh(s, outside, PcOf(s, a.t));
  }

  lemma StepKeepsFreshPcs(canon: Path -> Path, s: State, outside: set<Path>, a: Action)
    requires Canonical(canon) && Inv(s) && FreshInv(s, outside) && Step(canon, s, a).Some? && Allowed(a, outside)
    ensures PcsFresh(Step(canon, s, a).value, outside)
  {
    var s' := Step(canon, s, a).value;
    forall t: Tid ensures PcFresh(s', outside, PcOf(s', t)) {
      hide Step, Inv, FreshInv, PcFresh;
      if !Opens(a) || a.t != t {
        OthersKeepPc(canon, s, a, t);
        StepKeepsOtherFresh(canon, s, outside, a, t);
      } else if a.CheckExists? {
        CheckKeepsFresh(canon, s, outside, a);
      } else {
        OpenKeepsFresh(canon, s, outside, a);
      }
    }
  }

  // ---------- From one canonical name per string to the paths that are opened ----------

  /** The path of an open under way that has not got its object yet. */
  predicate Names(pc: Pc, path: Path) {
    (pc.Opening? || pc.Keyed? || InLock(pc)) && pc.path == path
  }

  /** All opens under way are of canonical paths. */
  ghost predicate CanonicalOpens(canon: Path -> Path, s: State) {
    forall t: Tid, p: Path | Names(PcOf(s, t), p) :: canon(p) == p
  }

  function Same(p: Path): Path {
    p
  }

  /** A step of opens of canonical paths does not see that other paths are aliases. */
  lemma StepSeesNoAlias(canon: Path -> Path, s: State, a: Action)
    requires CanonicalOpens(canon, s) && (a.Open? ==> canon(a.path) == a.path)
    ensures Step(canon, s, a) == Step(Same, s, a)
    ensures Step(canon, s, a).Some? ==> CanonicalOpens(canon, Step(canon, s, a).value)
  {
    hide Live;
    if Opens(a) && !a.Open? {
      var pc := PcOf(s, a.t);
      assert pc.Opening? || pc.Keyed? || InLock(pc) ==> Names(pc, pc.path);
    }
    if Step(canon, s, a).Some? {
      var s' := Step(canon, s, a).value;
      forall t: Tid, p: Path | Names(PcOf(s', t), p) ensures canon(p) == p {
        assert Names(PcOf(s, t), p) || (a.Open? && a.path == p);
      }
    }
  }

  /** The step of any thread, with any file created by any program, keeps the invariant as long as
      canonical paths are opened; and freshness of all files that other programs do not create. */
  lemma StepKeepsInv(canon: Path -> Path, s: State, outside: set<Path>, a: Action)
    requires CanonicalOpens(canon, s) && (a.Open? ==> canon(a.path) == a.path)
    requires Inv(s) && Step(canon, s, a).Some?
    ensures CanonicalOpens(canon, Step(canon, s, a).value) && Inv(Step(canon, s, a).value)
    ensures FreshInv(s, outside) && Allowed(a, outside) ==> FreshInv(Step(canon, s, a).value, outside)
  {
    hide Step, Inv, PcsFresh, EntriesFresh, CanonicalOpens;
    StepSeesNoAlias(canon, s, a);
    StepKeepsSharing(Same, s, a);
    if FreshInv(s, outside) && Allowed(a, outside) {
      StepKeepsFreshPcs(Same, s, outside, a);
      StepKeepsFreshEntries(Same, s, outside, a);
    }
  }

  lemma StartInv(canon: Path -> Path, outside: set<Path>)
    ensures Inv(START) && FreshInv(START, outside) && CanonicalOpens(canon, START)
  {
  }

  /** The paths that a run opens are canonical. */
  predicate OpensCanonical(canon: Path -> Path, run: seq<Action>) {
    forall a <- run :: a.Open? ==> canon(a.path) == a.path
  }

  /** Every interleaving of opens of canonical paths, closes, deletions and creations by other programs. */
  lemma {:induction false} RunKeepsInv(canon: Path -> Path, run: seq<Action>, outside: set<Path>)
    requires OpensCanonical(canon, run) && Exec(canon, run).Some?
    ensures CanonicalOpens(canon, Exec(canon, run).value) && Inv(Exec(canon, run).value)
    ensures (forall a <- run :: Allowed(a, outside)) ==> FreshInv(Exec(canon, run).value, outside)
  {
    hide Step, Inv, FreshInv, CanonicalOpens, Live;
    StartInv(canon, outside);
    if run != [] {
      var before, a := run[..|run| - 1], run[|run| - 1];
      assert run == before + [a];
      RunKeepsInv(canon, before, outside);
      StepKeepsInv(canon, Exec(canon, before).value, outside, a);
    }
  }

  lemma InvShares(s: State)
    requires Inv(s)
    ensures Sharing(s)
  {
    forall i, j | 0 <= i < |s.conns| && 0 <= j < |s.conns| && s.conns[i].open && s.conns[j].open
      ensures SameObject(s, s.conns[i].database, s.conns[j].database)
    {
      var o, p := s.conns[i].database.value, s.conns[j].database.value;
      assert Live(s, o) && Live(s, p);
    }
  }

  // ---------- Freshness ----------

  ghost predicate Possible(canon: Path -> Path, run: seq<Action>) {
    Exec(canon, run).Some?
  }

  lemma {:induction false} PrefixPossible(canon: Path -> Path, run: seq<Action>, i: nat)
    requires Possible(canon, run) && i <= |run|
    ensures Possible(canon, run[..i])
    decreases |run|
  {
    if i == |run| {
      assert run[..i] == run;
    } else {
      PrefixPossible(canon, run[..|run| - 1], i);
      assert run[..|run| - 1][..i] == run[..i];
    }
  }

  /** The state before action i of a run. */
  ghost function Before(canon: Path -> Path, run: seq<Action>, i: nat): State
    requires Possible(canon, run) && i <= |run|
  {
    PrefixPossible(canon, run, i);
    Exec(canon, run[..i]).value
  }

  lemma StepOfRun(canon: Path -> Path, run: seq<Action>, i: nat)
    requires Possible(canon, run) && i < |run|
    ensures Step(canon, Before(canon, run, i), run[i]) == Some(Before(canon, run, i + 1))
  {
    hide Step;
    PrefixPossible(canon, run, i);
    PrefixPossible(canon, run, i + 1);
    assert run[..i + 1][..i] == run[..i];
  }

  /** An open between taking the lock and returning. */
  predicate Serving(pc: Pc) {
    InLock(pc) || pc.HasRef?
  }

  lemma ServingKeepsFloor(canon: Path -> Path, s: State, a: Action, t: Tid)
    requires Step(canon, s, a).Some? && Serving(PcOf(s, t)) && Serving(PcOf(Step(canon, s, a).value, t))
    ensures PcOf(Step(canon, s, a).value, t).floor == PcOf(s, t).floor
    ensures s.objects <= Step(canon, s, a).value.objects
  {
    hide Live;
  }

  /** Thread t takes the lock with action i and is still serving that open up to action j. */
  ghost predicate Serves(canon: Path -> Path, run: seq<Action>, t: Tid, i: nat, j: nat)
    requires Possible(canon, run)
  {
    && i < j <= |run| && run[i] == Lock(t)
    && forall k :: i < k <= j ==> Serving(PcOf(Before(canon, run, k), t))
  }

  lemma {:induction false} FloorOfServing(canon: Path -> Path, run: seq<Action>, t: Tid, i: nat, j: nat)
    requires Possible(canon, run) && Serves(canon, run, t, i, j)
    ensures var s, s' := Before(canon, run, i), Before(canon, run, j);
            && PcOf(s, t).Keyed?
            && s.objects <= s'.objects
            && var file := canon(PcOf(s, t).path);
               PcOf(s', t).floor == if file in s.files then s.files[file] else s.next
    decreases j
  {
    hide Step, Exec, Before;
    StepOfRun(canon, run, j - 1);
    if j == i + 1 {
      LockSetsFloor(canon, Before(canon, run, i), t);
    } else {
      FloorOfServing(canon, run, t, i, j - 1);
      ServingKeepsFloor(canon, Before(canon, run, j - 1), run[j - 1], t);
    }
  }

  lemma LockSetsFloor(canon: Path -> Path, s: State, t: Tid)
    requires Step(canon, s, Lock(t)).Some?
    ensures PcOf(s, t).Keyed?
    ensures var s', file := Step(canon, s, Lock(t)).value, canon(PcOf(s, t).path);
            && Serving(PcOf(s', t)) && s'.objects == s.objects
            && PcOf(s', t).floor == if file in s.files then s.files[file] else s.next
  {
    hide Live;
  }

  /** The object that an open returns belongs to the file that was opened. */
  lemma ServedStep(canon: Path -> Path, s: State, a: Action, t: Tid, path: Path)
    requires Inv(s) && CanonicalOpens(canon, s) && Step(canon, s, a).Some?
    requires InLock(PcOf(s, t)) ==> PcOf(s, t).path == path
    requires PcOf(s, t).HasRef? ==> PcOf(s, t).obj < |s.objects| && s.objects[PcOf(s, t).obj].file == path
    requires Serving(PcOf(s, t))
    ensures var s', pc := Step(canon, s, a).value, PcOf(Step(canon, s, a).value, t);
            && (InLock(pc) ==> pc.path == path)
            && (pc.HasRef? ==> pc.obj < |s'.objects| && s'.objects[pc.obj].file == path)
  {
    hide Live, Unique, RegistryOk, ConnsOk, FilesOk;
    assert PcOk(s, PcOf(s, t));
    if InLock(PcOf(s, t)) {
      assert Names(PcOf(s, t), path);
    }
  }

  lemma {:induction false} ServedFile(canon: Path -> Path, run: seq<Action>, t: Tid, i: nat, j: nat)
    requires OpensCanonical(canon, run) && Possible(canon, run) && Serves(canon, run, t, i, j)
    ensures PcOf(Before(canon, run, i), t).Keyed?
    ensures var s, path := Before(canon, run, j), PcOf(Before(canon, run, i), t).path;
            var pc := PcOf(s, t);
            && (InLock(pc) ==> pc.path == path)
            && (pc.HasRef? ==> pc.obj < |s.objects| && s.objects[pc.obj].file == path)
    decreases j
  {
    hide Step, Exec, Before, Live, Inv, CanonicalOpens;
    StepOfRun(canon, run, j - 1);
    PrefixInv(canon, run, j - 1, {});
    if j == i + 1 {
      LockSetsFloor(canon, Before(canon, run, i), t);
      LockKeepsPath(canon, Before(canon, run, i), t);
    } else {
      ServedFile(canon, run, t, i, j - 1);
      ServedStep(canon, Before(canon, run, j - 1), run[j - 1], t, PcOf(Before(canon, run, i), t).path);
    }
  }

  lemma LockKeepsPath(canon: Path -> Path, s: State, t: Tid)
    requires Step(canon, s, Lock(t)).Some?
    ensures PcOf(s, t).Keyed?
    ensures var pc := PcOf(Step(canon, s, Lock(t)).value, t); pc.Locked? && pc.path == PcOf(s, t).path
  {
    hide Live;
  }

  lemma PrefixInv(canon: Path -> Path, run: seq<Action>, i: nat, outside: set<Path>)
    requires OpensCanonical(canon, run) && Possible(canon, run) && i <= |run|
    ensures Inv(Before(canon, run, i)) && CanonicalOpens(canon, Before(canon, run, i))
    ensures (forall a <- run :: Allowed(a, outside)) ==> FreshInv(Before(canon, run, i), outside)
  {
    hide Exec, Inv, FreshInv, CanonicalOpens;
    PrefixPossible(canon, run, i);
    assert forall a <- run[..i] :: a in run;
    RunKeepsInv(canon, run[..i], outside);
  }

  /** Reopening a path whose old file was deleted never returns the old object, however long it stays
      alive in other connections: the object returned belongs to a later incarnation.  The run opens
      canonical paths, and other programs may create any files but this one. */
  lemma ReopenIsFresh(canon: Path -> Path, run: seq<Action>, t: Tid, i: nat, j: nat, earlier: Obj)
    requires OpensCanonical(canon, run) && Possible(canon, run) && Serves(canon, run, t, i, j)
    requires PcOf(Before(canon, run, j), t).HasRef?
    requires var s := Before(canon, run, i);
             && PcOf(s, t).Keyed? && earlier < |s.objects| && s.objects[earlier].file == PcOf(s, t).path
             && var b := s.objects[earlier]; b.file in s.files ==> b.incarnation != s.files[b.file]
    requires forall a <- run :: a.CreateOutside? ==> a.file != PcOf(Before(canon, run, i), t).path
    ensures var s := Before(canon, run, j);
            && PcOf(s, t).obj < |s.objects| && earlier < |s.objects|
            && s.objects[PcOf(s, t).obj].incarnation > s.objects[earlier].incarnation
            && PcOf(s, t).obj != earlier
  {
    hide Step, Exec, Live;
    var outside := set a | a in run && a.CreateOutside? :: a.file;
    FloorOfServing(canon, run, t, i, j);
    ServedFile(canon, run, t, i, j);
    PrefixInv(canon, run, i, outside);
    PrefixInv(canon, run, j, outside);
    var s, s' := Before(canon, run, i), Before(canon, run, j);
    assert Names(PcOf(s, t), PcOf(s, t).path);
    assert ObjectOk(s.files, s.next, s.objects[earlier]);
    assert PcFresh(s', outside, PcOf(s', t));
    assert s'.objects[earlier] == s.objects[earlier];
  }

  // ---------- When sharing holds ----------

  lemma ExecSnoc(canon: Path -> Path, run: seq<Action>, a: Action)
    requires Possible(canon, run) && Step(canon, Exec(canon, run).value, a).Some?
    ensures Possible(canon, run + [a])
    ensures Exec(canon, run + [a]) == Step(canon, Exec(canon, run).value, a)
  {
    hide Step, Live;
    assert (run + [a])[..|run|] == run;
  }

  /** Appending an action to a run within the same paths. */
  lemma Append(canon: Path -> Path, run: seq<Action>, a: Action, paths: set<Path>, outside: set<Path>)
    requires Possible(canon, run) && Within(run, paths, outside)
    requires Step(canon, Exec(canon, run).value, a).Some? && Within([a], paths, outside)
    ensures Possible(canon, run + [a]) && Within(run + [a], paths, outside)
    ensures Exec(canon, run + [a]) == Step(canon, Exec(canon, run).value, a)
  {
    hide Step, Live;
    assert a in [a];
    ExecSnoc(canon, run, a);
  }

  /** Threads 1 and 2 compute their keys for a path while its file does not exist yet; thread 1 then
      finds the file missing. */
  lemma KeysComputed(canon: Path -> Path, p: Path, paths: set<Path>, outside: set<Path>) returns (run: seq<Action>)
    requires p in paths
    ensures Within(run, paths, outside) && Possible(canon, run)
    ensures var s := Exec(canon, run).value;
            && PcOf(s, 1) == Checked(p, p, 0, false) && PcOf(s, 2) == Keyed(p, p) && s.lock == Some(1)
            && s.files == map[] && s.next == 0 && s.registry == map[] && s.objects == [] && s.conns == []
  {
    run := [];
    Append(canon, run, Open(1, p, true), paths, outside);
    hide Live, Exec;
    run := run + [Open(1, p, true)];
    Append(canon, run, ComputeKey(1), paths, outside);
    run := run + [ComputeKey(1)];
    Append(canon, run, Open(2, p, true), paths, outside);
    run := run + [Open(2, p, true)];
    Append(canon, run, ComputeKey(2), paths, outside);
    run := run + [ComputeKey(2)];
    Append(canon, run, Lock(1), paths, outside);
    run := run + [Lock(1)];
    Append(canon, run, CheckExists(1), paths, outside);
    run := run + [CheckExists(1)];
  }

  /** Thread 1 opens the file, which registers it under its canonical path. */
  lemma FirstOpened(canon: Path -> Path, p: Path, paths: set<Path>, outside: set<Path>) returns (run: seq<Action>)
    requires p in paths
    ensures Within(run, paths, outside) && Possible(canon, run)
    ensures var s, q := Exec(canon, run).value, canon(p);
            && PcOf(s, 2) == Keyed(p, p) && s.lock == None
            && q in s.files && s.registry.Keys == {q} && s.conns == [Conn(true, Some(0))]
            && s.objects == [Bound(q, s.files[q])]
  {
    hide Live, Exec;
    run := KeysComputed(canon, p, paths, outside);
    Append(canon, run, Build(1, true), paths, outside);
    run := run + [Build(1, true)];
    Append(canon, run, Insert(1), paths, outside);
    run := run + [Insert(1)];
    Append(canon, run, Connect(1, true), paths, outside);
    run := run + [Connect(1, true)];
  }

  /** Thread 2 goes on with its outdated key, misses the entry and builds a second object. */
  lemma AliasSplits(canon: Path -> Path, p: Path, paths: set<Path>, outside: set<Path>) returns (run: seq<Action>)
    requires canon(p) != p && p in paths
    ensures Within(run, paths, outside) && Possible(canon, run)
    ensures var s := Exec(canon, run).value;
            && s.conns == [Conn(true, Some(0)), Conn(true, Some(1))]
            && |s.objects| == 2 && s.objects[0] == s.objects[1]
  {
    hide Live, Exec;
    run := FirstOpened(canon, p, paths, outside);
    Append(canon, run, Lock(2), paths, outside);
    run := run + [Lock(2)];
    Append(canon, run, CheckExists(2), paths, outside);
    run := run + [CheckExists(2)];
    assert p !in Exec(canon, run).value.registry;
    Append(canon, run, Build(2, true), paths, outside);
    run := run + [Build(2, true)];
    Append(canon, run, Insert(2), paths, outside);
    run := run + [Insert(2)];
    Append(canon, run, Connect(2, true), paths, outside);
    run := run + [Connect(2, true)];
  }

  /** Sharing holds over all interleavings of opens of some paths, closes, deletions and creations by
      other programs exactly when the opened paths are canonical, whatever files the other programs
      create.  The key is computed before the lock is taken: two opens of one alias of a file that does
      not exist yet are enough for two live connections to one file to hold different objects. */
  lemma SharingHoldsExactly(canon: Path -> Path, paths: set<Path>, outside: set<Path>)
    ensures (forall p <- paths :: canon(p) == p) <==>
            forall run: seq<Action> | Within(run, paths, outside) && Possible(canon, run) ::
              Sharing(Exec(canon, run).value)
  {
    hide Exec, Step, Inv;
    if forall p <- paths :: canon(p) == p {
      forall run: seq<Action> | Within(run, paths, outside) && Possible(canon, run)
        ensures Sharing(Exec(canon, run).value)
      {
        hide Sharing;
        RunKeepsInv(canon, run, outside);
        InvShares(Exec(canon, run).value);
      }
    } else {
      var p :| p in paths && canon(p) != p;
      var run := AliasSplits(canon, p, paths, outside);
      var s := Exec(canon, run).value;
      assert !SameObject(s, s.conns[0].database, s.conns[1].database);
      assert !Sharing(s);
    }
  }

  // ---------- When freshness holds ----------

  /** Opens under way and objects are of the paths that are opened. */
  ghost predicate NamedBy(s: State, paths: set<Path>) {
    && (forall t: Tid, p: Path | Names(PcOf(s, t), p) :: p in paths)
    && (forall o | 0 <= o < |s.objects| :: s.objects[o].file in paths)
  }

  lemma StepNamedBy(canon: Path -> Path, s: State, a: Action, paths: set<Path>)
    requires NamedBy(s, paths) && CanonicalOpens(canon, s) && Step(canon, s, a).Some?
    requires a.Open? ==> a.path in paths
    ensures NamedBy(Step(canon, s, a).value, paths)
  {
    hide Live;
    var s' := Step(canon, s, a).value;
    forall t: Tid, p: Path | Names(PcOf(s', t), p) ensures p in paths {
      assert Names(PcOf(s, t), p) || (a.Open? && a.path == p);
    }
    if a.Build? {
      assert Names(PcOf(s, a.t), PcOf(s, a.t).path);
    }
  }

  lemma {:induction false} RunNamedBy(canon: Path -> Path, run: seq<Action>, paths: set<Path>, outside: set<Path>)
    requires OpensCanonical(canon, run) && Within(run, paths, outside) && Possible(canon, run)
    ensures NamedBy(Exec(canon, run).value, paths)
  {
    hide Step, Inv, CanonicalOpens, NamedBy;
    if run == [] {
      NothingNamed(paths);
    } else {
      var before, a := run[..|run| - 1], run[|run| - 1];
      assert run == before + [a];
      RunNamedBy(canon, before, paths, outside);
      RunKeepsInv(canon, before, outside);
      StepNamedBy(canon, Exec(canon, before).value, a, paths);
    }
  }

  lemma NothingNamed(paths: set<Path>)
    ensures NamedBy(START, paths)
  {
  }

  lemma InvFresh(s: State, paths: set<Path>, outside: set<Path>)
    requires Inv(s) && FreshInv(s, outside) && NamedBy(s, paths) && paths !! outside
    ensures Fresh(s)
  {
    hide Live;
    forall t: Tid
      ensures var pc := PcOf(s, t);
              pc.HasRef? ==> pc.obj < |s.objects| && s.objects[pc.obj].incarnation >= pc.floor
    {
      assert PcFresh(s, outside, PcOf(s, t));
      assert InLock(PcOf(s, t)) <==> s.lock == Some(t);
    }
  }

  /** The file is deleted between the building of its object and the computing of the entry's key: the
      live object stays registered under the alias. */
  lemma StaleEntry(canon: Path -> Path, p: Path, paths: set<Path>, outside: set<Path>) returns (run: seq<Action>)
    requires canon(p) != p && p in paths
    ensures Within(run, paths, outside) && Possible(canon, run)
    ensures var s := Exec(canon, run).value;
            && PcOf(s, 1) == Idle && PcOf(s, 2) == Keyed(p, p) && s.lock == None
            && s.files == map[] && s.next == 1 && s.registry == map[p := 0] && s.conns == [Conn(true, Some(0))]
            && s.objects == [Bound(canon(p), 0)]
  {
    hide Live, Exec;
    run := KeysComputed(canon, p, paths, outside);
    Append(canon, run, Build(1, true), paths, outside);
    run := run + [Build(1, true)];
    Append(canon, run, Delete(canon(p)), paths, outside);
    run := run + [Delete(canon(p))];
    assert Exec(canon, run).value.files == map[];
    Append(canon, run, Insert(1), paths, outside);
    run := run + [Insert(1)];
    assert Exec(canon, run).value.registry == map[p := 0];
    Append(canon, run, Connect(1, true), paths, outside);
    run := run + [Connect(1, true)];
  }

  /** Thread 1 recreates the file, while thread 2 still has the alias for its key. */
  lemma Recreated(canon: Path -> Path, p: Path, paths: set<Path>, outside: set<Path>) returns (run: seq<Action>)
    requires canon(p) != p && p in paths
    ensures Within(run, paths, outside) && Possible(canon, run)
    ensures var s := Exec(canon, run).value;
            && PcOf(s, 2) == Keyed(p, p) && s.lock == None
            && canon(p) in s.files && s.files[canon(p)] == 1
            && p in s.registry && s.registry[p] == 0
            && |s.conns| > 0 && s.conns[0] == Conn(true, Some(0)) && |s.objects| > 0 && s.objects[0].incarnation == 0
  {
    hide Live, Exec;
    run := StaleEntry(canon, p, paths, outside);
    Append(canon, run, Open(1, p, true), paths, outside);
    run := run + [Open(1, p, true)];
    Append(canon, run, ComputeKey(1), paths, outside);
    run := run + [ComputeKey(1)];
    Append(canon, run, Lock(1), paths, outside);
    run := run + [Lock(1)];
    Append(canon, run, CheckExists(1), paths, outside);
    run := run + [CheckExists(1)];
    Append(canon, run, Build(1, true), paths, outside);
    run := run + [Build(1, true)];
    FirstConnLive(Exec(canon, run).value, 0);
    Append(canon, run, Insert(1), paths, outside);
    run := run + [Insert(1)];
  }

  lemma FirstConnLive(s: State, o: Obj)
    requires |s.conns| > 0 && s.conns[0].database == Some(o)
    ensures Live(s, o)
  {
  }

  /** Thread 2 is served the object of the deleted file. */
  lemma AliasServesStale(canon: Path -> Path, p: Path, paths: set<Path>, outside: set<Path>) returns (run: seq<Action>)
    requires canon(p) != p && p in paths
    ensures Within(run, paths, outside) && Possible(canon, run) && !Fresh(Exec(canon, run).value)
  {
    hide Live, Exec;
    run := Recreated(canon, p, paths, outside);
    Append(canon, run, Lock(2), paths, outside);
    run := run + [Lock(2)];
    Append(canon, run, CheckExists(2), paths, outside);
    run := run + [CheckExists(2)];
    FirstConnLive(Exec(canon, run).value, 0);
    Append(canon, run, Lookup(2), paths, outside);
    run := run + [Lookup(2)];
    assert PcOf(Exec(canon, run).value, 2) == HasRef(0, 1);
  }

  /** Over all interleavings of opens of some paths, closes, deletions and creations by other programs,
      no open is ever served an object older than the file it found, exactly when every opened path is
      canonical and is created by opens only. */
  lemma FreshnessHoldsExactly(canon: Path -> Path, paths: set<Path>, outside: set<Path>)
    ensures (forall p <- paths :: canon(p) == p && p !in outside) <==>
            forall run: seq<Action> | Within(run, paths, outside) && Possible(canon, run) ::
              Fresh(Exec(canon, run).value)
  {
    hide Exec, Step, Inv, FreshInv, NamedBy;
    if forall p <- paths :: canon(p) == p && p !in outside {
      forall run: seq<Action> | Within(run, paths, outside) && Possible(canon, run)
        ensures Fresh(Exec(canon, run).value)
      {
        hide Fresh;
        RunKeepsInv(canon, run, outside);
        RunNamedBy(canon, run, paths, outside);
        InvFresh(Exec(canon, run).value, paths, outside);
      }
    } else {
      var p :| p in paths && !(canon(p) == p && p !in outside);
      var run: seq<Action>;
      if canon(p) != p {
        run := AliasServesStale(canon, p, paths, outside);
      } else {
        run := OutsideCreationServesStale(canon, p, paths, outside);
      }
      assert Within(run, paths, outside) && Possible(canon, run) && !Fresh(Exec(canon, run).value);
    }
  }

  lemma OutsideOpened(canon: Path -> Path, p: Path, paths: set<Path>, outside: set<Path>) returns (run: seq<Action>)
    requires canon(p) == p && p in paths
    ensures Within(run, paths, outside) && Possible(canon, run)
    ensures var s := Exec(canon, run).value;
            && PcOf(s, 2) == Keyed(p, p) && s.lock == None
            && s.files == map[p := 0] && s.next == 1 && s.registry == map[p := 0]
            && s.objects == [Bound(p, 0)] && s.conns == [Conn(true, Some(0))]
  {
    hide Live, Exec;
    run := KeysComputed(canon, p, paths, outside);
    Append(canon, run, Build(1, true), paths, outside);
    run := run + [Build(1, true)];
    assert Exec(canon, run).value.files == map[p := 0];
    Append(canon, run, Insert(1), paths, outside);
    run := run + [Insert(1)];
    assert Exec(canon, run).value.registry == map[p := 0];
    Append(canon, run, Connect(1, true), paths, outside);
    run := run + [Connect(1, true)];
  }

  /** When another program recreates a deleted file, an open takes the entry of the old file for the
      new one. */
  lemma OutsideCreationServesStale(canon: Path -> Path, p: Path, paths: set<Path>, outside: set<Path>)
    returns (run: seq<Action>)
    requires canon(p) == p && p in paths && p in outside
    ensures Within(run, paths, outside) && Possible(canon, run) && !Fresh(Exec(canon, run).value)
  {
    hide Live, Exec;
    run := OutsideOpened(canon, p, paths, outside);
    Append(canon, run, Delete(p), paths, outside);
    run := run + [Delete(p)];
    Append(canon, run, CreateOutside(p), paths, outside);
    run := run + [CreateOutside(p)];
    Append(canon, run, Lock(2), paths, outside);
    run := run + [Lock(2)];
    Append(canon, run, CheckExists(2), paths, outside);
    run := run + [CheckExists(2)];
    FirstConnLive(Exec(canon, run).value, 0);
    Append(canon, run, Lookup(2), paths, outside);
    run := run + [Lookup(2)];
    assert PcOf(Exec(canon, run).value, 2) == HasRef(0, 1);
  }
}
